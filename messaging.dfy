/**
 * What the scripts do before handing a message to Twilio's WhatsApp
 * channel: check that the four Twilio variables are set, and put the
 * addresses into `whatsapp:` form.
 */
module Messaging {
  import opened Wrappers
  import opened Text

  const WhatsappPrefix: string := "whatsapp:"

  /** The address form Twilio's WhatsApp channel expects: the prefix is added only when absent. */
  function Whatsapp(addr: string): (r: string)
    ensures StartsWith(r, WhatsappPrefix)
    ensures r == addr || r == WhatsappPrefix + addr
    ensures StartsWith(addr, WhatsappPrefix) <==> r == addr
  {
    if StartsWith(addr, WhatsappPrefix) then addr else WhatsappPrefix + addr
  }

  /** Prefixing twice is prefixing once. */
  lemma WhatsappIdempotent(addr: string)
    ensures Whatsapp(Whatsapp(addr)) == Whatsapp(addr)
  {
  }

  /** The names a script reads its account id, token, sender and recipient from. */
  datatype TwilioVars = TwilioVars(sid: string, token: string, from: string, to: string)

  /** `all([...])` over the four values, a missing variable reading as empty. */
  predicate AllPresent(env: map<string, string>, vars: TwilioVars)
  {
    Present(env, vars.sid) && Present(env, vars.token) && Present(env, vars.from) && Present(env, vars.to)
  }

  /** The addresses a message goes between, once the four Twilio variables are all present. */
  datatype Route = Route(sid: string, token: string, from: string, to: string)

  /**
   * The guard and address preparation of a sender that prefixes: nothing
   * unless all four variables are set and non-empty; otherwise the
   * account's credentials and both addresses in `whatsapp:` form.
   */
  function SendRoute(env: map<string, string>, vars: TwilioVars): (r: Option<Route>)
    ensures r.Some? <==>
      Present(env, vars.sid) && Present(env, vars.token) && Present(env, vars.from) && Present(env, vars.to)
    ensures r.Some? ==>
      r.value.sid == env[vars.sid] && r.value.token == env[vars.token]
      && r.value.from == Whatsapp(env[vars.from]) && r.value.to == Whatsapp(env[vars.to])
  {
    if AllPresent(env, vars)
    then Some(Route(env[vars.sid], env[vars.token], Whatsapp(env[vars.from]), Whatsapp(env[vars.to])))
    else None
  }

  /**
   * A sender that does not prefix (scrape_and_notify.py): whether the API
   * is called at all, and what the call reports. `delivered` is the
   * service's answer, which the model cannot compute.
   */
  datatype Attempt = Skipped | Called(ok: bool)

  function PlainSend(env: map<string, string>, vars: TwilioVars, delivered: bool): (r: Attempt)
    ensures r.Skipped? <==> !(Present(env, vars.sid) && Present(env, vars.token) && Present(env, vars.from) && Present(env, vars.to))
    ensures r.Called? ==> r.ok == delivered
  {
    if AllPresent(env, vars) then Called(delivered) else Skipped
  }

  /** The send reports success only when the four variables were set and the service accepted the message. */
  predicate Sent(a: Attempt)
  {
    a.Called? && a.ok
  }
}
