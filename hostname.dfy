/** `getHostnameInfo` (main.go): the full hostname and its short form. */
module Hostname {
  import opened Wrappers
  import opened Strings

  /**
    * Takes the result of `os.Hostname()` and returns `(hostname, short)`, where
    * `short` is the first `.`-separated field. The fallback to the full name is
    * kept as written; `Split` never returns an empty list, so it is never taken.
    */
  function HostnameInfo(osHostname: Result<string>): (r: Result<(string, string)>)
    ensures osHostname.Fail? ==> r == Fail(osHostname.error)
    ensures osHostname.Ok? ==> r.Ok? && r.value.0 == osHostname.value
    ensures r.Ok? ==>
      var (hostname, short) := r.value;
      && short <= hostname
      && '.' !in short
      && (|short| < |hostname| ==> hostname[|short|] == '.')
      && ('.' !in hostname ==> short == hostname)
  {
    match osHostname
    case Fail(e) => Fail(e)
    case Ok(hostname) =>
      var hostnameParts := Split(hostname, '.');
      FirstField(hostname, '.');
      if |hostnameParts| > 0 then Ok((hostname, hostnameParts[0])) else Ok((hostname, hostname))
  }

  /** The three conditions in the contract above pin the short name down: nothing else meets them. */
  lemma ShortNameUnique(hostname: string, short: string)
    requires short <= hostname && '.' !in short
    requires |short| < |hostname| ==> hostname[|short|] == '.'
    ensures HostnameInfo(Ok(hostname)) == Ok((hostname, short))
  {
    var other := HostnameInfo(Ok(hostname)).value.1;
    assert forall k | 0 <= k < |short| :: short[k] == hostname[k];
    assert forall k | 0 <= k < |other| :: other[k] == hostname[k];
    assert other == hostname[..|other|] && short == hostname[..|short|];
  }
}
