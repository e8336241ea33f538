/** The listening port and TLS decision made once at startup (server.js lines 20-76).
    The two child processes (`ss -tuln` and `certbot`) and the certificate files
    enter only through their outcomes. */
module Startup {
  import opened Strings

  datatype Listener = Listener(port: int, tls: bool)

  /** Port 80 counts as taken when the `ss -tuln` output contains `:80` anywhere
      (server.js line 25). */
  predicate Port80Taken(ssOutput: string) {
    Contains(ssOutput, ":80")
  }

  /** certbot succeeded: it exited with code 0 and both certificate files were
      copied (server.js lines 47-61). */
  predicate CertbotSucceeded(exitCode: int, copied: bool) {
    exitCode == 0 && copied
  }

  /** `finalPort` and `finalSsl` (server.js lines 28-76). certbot only runs when port
      80 is free, no certificates exist, and both DOMAIN and EMAIL are non-empty;
      `certbotOk` is read only then. */
  function SelectListener(port80Taken: bool, certsExist: bool, domain: Option<string>, email: Option<string>, certbotOk: bool): (l: Listener)
    ensures l.tls <==> l.port == 443
    ensures l.port == 8081 <==> port80Taken
    ensures l.tls <==> !port80Taken && (certsExist || (Truthy(domain) && Truthy(email) && certbotOk))
    ensures l.port == 80 <==> !port80Taken && !l.tls
  {
    if port80Taken then Listener(8081, false)
    else if certsExist then Listener(443, true)
    else if Truthy(domain) && Truthy(email) then
      if certbotOk then Listener(443, true) else Listener(80, false)
    else Listener(80, false)
  }

  /** The whole startup decision from what the two child processes and the
      certificate check report. */
  function StartupListener(ssOutput: string, certsExist: bool, domain: Option<string>, email: Option<string>,
                           certbotExit: int, copied: bool): (l: Listener)
    ensures l.port == 8081 <==> Port80Taken(ssOutput)
    ensures l.tls <==> !Port80Taken(ssOutput) && (certsExist || (Truthy(domain) && Truthy(email) && certbotExit == 0 && copied))
  {
    SelectListener(Port80Taken(ssOutput), certsExist, domain, email, CertbotSucceeded(certbotExit, copied))
  }

  /** The outcome of certbot matters only on the path where it runs. */
  lemma {:induction false} CertbotOnlyWhenNeeded(port80Taken: bool, certsExist: bool, domain: Option<string>, email: Option<string>)
    requires port80Taken || certsExist || !Truthy(domain) || !Truthy(email)
    ensures SelectListener(port80Taken, certsExist, domain, email, true)
         == SelectListener(port80Taken, certsExist, domain, email, false)
  {
  }

  /** The `:80` test also fires on other ports that begin with 80, such as 8080. */
  lemma Port8080CountsAsTaken()
    ensures Port80Taken("*:8080")
  {
    var s := "*:8080";
    assert s[1..4] == ":80";
    assert OccursAt(s, ":80", 1);
    ContainsIffOccurs(s, ":80");
  }
}
