/** The client address recorded with admin actions: the first X-Forwarded-For entry
    when a proxy sent one, otherwise the socket's remote address. */
module Audit {
  import opened Domain
  import opened Text

  /** The two request attributes capture_ip reads. */
  datatype Request = Request(forwardedFor: Option<string>, remoteAddr: Option<string>)

  /** The text of a header up to its first comma. */
  function FirstEntry(header: string): (entry: string)
    ensures ',' !in entry
    ensures |entry| <= |header| && entry == header[..|entry|]
    ensures |entry| < |header| ==> header[|entry|] == ','
  {
    var i := FirstIndex(header, ',');
    header[..i]
  }

  /** capture_ip: no request gives no address; a non-empty X-Forwarded-For gives its
      first comma-separated entry, trimmed; otherwise remote_addr. */
  function CaptureIp(request: Option<Request>): (r: Option<string>)
    ensures request.None? ==> r.None?
    ensures request.Some? && request.value.forwardedFor.Some? && request.value.forwardedFor.value != [] ==>
      r == Some(Strip(FirstEntry(request.value.forwardedFor.value)))
    ensures request.Some? && (request.value.forwardedFor.None? || request.value.forwardedFor.value == []) ==>
      r == request.value.remoteAddr
  {
    match request
    case None => None
    case Some(req) =>
      if req.forwardedFor.Some? && req.forwardedFor.value != [] then
        Some(Strip(SplitOn(req.forwardedFor.value, ',')[0]))
      else req.remoteAddr
  }

  /** An address taken from a non-empty header (CaptureIp gives Strip(FirstEntry(h)))
      has no comma and sits at offset k of the header; it carries no surrounding
      whitespace by Text.StripIdempotent. */
  lemma HeaderAddressShape(header: string) returns (k: nat)
    ensures ',' !in Strip(FirstEntry(header))
    ensures k + |Strip(FirstEntry(header))| <= |header|
    ensures header[k..k + |Strip(FirstEntry(header))|] == Strip(FirstEntry(header))
  {
    var entry := FirstEntry(header);
    var ip := Strip(entry);
    k := StripIsInfix(entry);
    InfixOfPrefix(header, entry, ip, k);
    InfixLacks(entry, ip, k, ',');
  }

  lemma InfixOfPrefix(s: string, p: string, t: string, k: nat)
    requires |p| <= |s| && p == s[..|p|]
    requires k + |t| <= |p| && t == p[k..k + |t|]
    ensures s[k..k + |t|] == t
  {
  }

  lemma InfixLacks(s: string, t: string, k: nat, c: char)
    requires c !in s && k + |t| <= |s| && t == s[k..k + |t|]
    ensures c !in t
  {
    forall j | 0 <= j < |t| ensures t[j] != c {
      assert t[j] == s[k + j];
    }
  }

  /** Only the first hop matters: appending more proxies after a comma does not change
      the captured address. */
  lemma LaterHopsIgnored(first: string, rest: string, remote: Option<string>)
    requires first != [] && ',' !in first
    ensures CaptureIp(Some(Request(Some(first + "," + rest), remote))) == CaptureIp(Some(Request(Some(first), remote)))
  {
    FirstIndexOfJoin(first, ',', rest);
    assert first + "," + rest == first + [','] + rest;
    assert (first + [','] + rest)[..|first|] == first;
    assert FirstIndex(first, ',') == |first|;
  }
}
