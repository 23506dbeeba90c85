/** The video identifier: the 32 hexadecimal characters of a
    `http(s)://rutube.ru/video/<id>/` link, matched case-insensitively. */
module VideoId {
  import opened Wrappers
  import opened Text

  /** One character of a case-insensitive pattern: a lower-case ASCII letter
      matches itself, its upper case and the other members of its simple
      case-folding orbit ('s' also matches U+017F, 'k' also U+212A); any other
      pattern character matches only itself. */
  predicate FoldEq(c: char, p: char) {
    if 'a' <= p <= 'z' then
      || c == p
      || c as int == p as int - 32
      || (p == 's' && c as int == 0x17F)
      || (p == 'k' && c as int == 0x212A)
    else c == p
  }

  predicate MatchesFold(s: string, pattern: string) {
    |s| == |pattern| && forall k :: 0 <= k < |s| ==> FoldEq(s[k], pattern[k])
  }

  /** [a-f0-9] under case-insensitive matching. */
  predicate IsHex(c: char) {
    '0' <= c <= '9' || 'a' <= c <= 'f' || 'A' <= c <= 'F'
  }

  predicate AllHex(s: string) {
    forall k :: 0 <= k < |s| ==> IsHex(s[k])
  }

  const HttpPrefix: string := "http://rutube.ru/video/"
  const HttpsPrefix: string := "https://rutube.ru/video/"
  const IdLength: nat := 32

  /** t is a video link whose identifier is id: one of the two prefixes (in
      any letter case), the 32 hexadecimal characters of id, and at most one
      trailing '/'. */
  predicate IsVideoLink(t: string, id: string) {
    var end := if |t| > 0 && t[|t| - 1] == '/' then |t| - 1 else |t|;
    && |id| == IdLength && AllHex(id)
    && end >= IdLength && t[end - IdLength..end] == id
    && (MatchesFold(t[..end - IdLength], HttpPrefix) || MatchesFold(t[..end - IdLength], HttpsPrefix))
  }

  /** The length of the scheme-and-path prefix t starts with (the "http"
      one is tried first), or 0 when it starts with neither. */
  function PrefixLength(t: string): (n: nat)
    ensures n == 0 || n == |HttpPrefix| || n == |HttpsPrefix|
    ensures n > 0 ==> n <= |t| && (MatchesFold(t[..n], HttpPrefix) || MatchesFold(t[..n], HttpsPrefix))
  {
    if |t| >= |HttpPrefix| && MatchesFold(t[..|HttpPrefix|], HttpPrefix) then |HttpPrefix|
    else if |t| >= |HttpsPrefix| && MatchesFold(t[..|HttpsPrefix|], HttpsPrefix) then |HttpsPrefix|
    else 0
  }

  /** The identifier after a matched prefix of length n: exactly 32
      hexadecimal characters, then at most one '/', then the end. */
  function IdAfter(t: string, n: nat): (r: Result<string>)
    requires 0 < n <= |t| && (MatchesFold(t[..n], HttpPrefix) || MatchesFold(t[..n], HttpsPrefix))
    ensures r.Ok? ==> IsVideoLink(t, r.value)
    ensures r.Err? ==> r.error == InvalidURL
  {
    if (|t| == n + IdLength || (|t| == n + IdLength + 1 && t[n + IdLength] == '/'))
       && AllHex(t[n..n + IdLength])
    then
      var id := t[n..n + IdLength];
      assert t[..n] == t[..n + IdLength][..n];
      Ok(id)
    else Err(InvalidURL)
  }

  /** extractID: trims the input, then accepts exactly the video links and
      returns the identifier as written. */
  function ExtractID(input: string): (r: Result<string>)
    ensures r.Ok? ==> IsVideoLink(TrimSpace(input), r.value)
    ensures r.Err? ==> r.error == InvalidURL
  {
    var t := TrimSpace(input);
    var n := PrefixLength(t);
    if n == 0 then Err(InvalidURL) else IdAfter(t, n)
  }

  /** A link with the "https" prefix never also matches the "http" one: the
      fifth character is ':' in one and a form of 's' in the other. */
  lemma SchemesExclusive(t: string)
    requires |t| >= |HttpsPrefix| && MatchesFold(t[..|HttpsPrefix|], HttpsPrefix)
    ensures !MatchesFold(t[..|HttpPrefix|], HttpPrefix)
  {
    assert HttpsPrefix[4] == 's' && HttpPrefix[4] == ':';
    assert FoldEq(t[..|HttpsPrefix|][4], 's');
    assert t[..|HttpPrefix|][4] == t[4] == t[..|HttpsPrefix|][4];
  }

  /** ExtractID accepts every video link, and returns its identifier. */
  lemma ExtractIDComplete(input: string, id: string)
    requires IsVideoLink(TrimSpace(input), id)
    ensures ExtractID(input) == Ok(id)
  {
    var t := TrimSpace(input);
    var end := if |t| > 0 && t[|t| - 1] == '/' then |t| - 1 else |t|;
    var n := end - IdLength;
    if MatchesFold(t[..n], HttpPrefix) {
      assert n == |HttpPrefix|;
    } else {
      assert n == |HttpsPrefix|;
      SchemesExclusive(t);
    }
    assert t[n..n + IdLength] == id;
  }

  /** A prefix, an identifier and an optional slash form a video link. */
  lemma LinkOfParts(prefix: string, id: string, slash: string)
    requires MatchesFold(prefix, HttpPrefix) || MatchesFold(prefix, HttpsPrefix)
    requires |id| == IdLength && AllHex(id)
    requires slash == "" || slash == "/"
    ensures IsVideoLink(prefix + id + slash, id)
  {
    var core := prefix + id + slash;
    var end := |prefix| + IdLength;
    if slash == "" {
      assert core[|core| - 1] == id[IdLength - 1];
      assert core == prefix + id;
    } else {
      assert core[|core| - 1] == '/';
      assert core[..end] == prefix + id;
    }
    assert core[..end][..end - IdLength] == prefix;
    assert core[..end][end - IdLength..] == id;
  }

  /** Every video link, padded with any white space, yields its identifier. */
  lemma ExtractIDAccepts(ws1: string, prefix: string, id: string, slash: string, ws2: string)
    requires AllSpace(ws1) && AllSpace(ws2)
    requires MatchesFold(prefix, HttpPrefix) || MatchesFold(prefix, HttpsPrefix)
    requires |id| == IdLength && AllHex(id)
    requires slash == "" || slash == "/"
    ensures ExtractID(ws1 + prefix + id + slash + ws2) == Ok(id)
  {
    var core := prefix + id + slash;
    assert !IsSpace(core[0]) by {
      assert core[0] == prefix[0];
      assert FoldEq(prefix[0], 'h');
    }
    assert !IsSpace(core[|core| - 1]) by {
      if slash == "" { assert core[|core| - 1] == id[IdLength - 1]; }
    }
    assert ws1 + prefix + id + slash + ws2 == ws1 + core + ws2;
    TrimSpacePadded(ws1, core, ws2);
    LinkOfParts(prefix, id, slash);
    ExtractIDComplete(ws1 + prefix + id + slash + ws2, id);
  }
}
