/** The manifest locator: three ways of asking the video host for the HLS
    manifest reference (`video_balancer.m3u8`) and the title of a video, tried
    in a fixed order. The HTTP exchanges are inputs (see Wrappers.HttpReply);
    what is modelled is how each reply is read and how the three are chained. */
module Locator {
  import opened Wrappers
  import opened Text

  /** A JSON value as encoding/json decodes it into `any`: objects become maps
      (a repeated key keeps its last value), numbers are float64. */
  datatype Json =
    | JNull
    | JBool(b: bool)
    | JNumber(n: real)
    | JString(s: string)
    | JArray(items: seq<Json>)
    | JObject(fields: map<string, Json>)

  /** playOptions: the title and the manifest reference. */
  datatype PlayOptions = PlayOptions(title: string, m3u8: string)

  // ---- 1) the init endpoint: tolerant field access on map[string]any ----

  /** `m[key].(string)` with the ok flag ignored: "" unless the key holds a string. */
  function StringField(m: map<string, Json>, key: string): string {
    if key in m && m[key].JString? then m[key].s else ""
  }

  /** `m[key].(map[string]any)` with the ok flag ignored: a nil (empty) map
      unless the key holds an object. */
  function ObjectField(m: map<string, Json>, key: string): map<string, Json> {
    if key in m && m[key].JObject? then m[key].fields else map[]
  }

  /** The document carries a usable manifest reference: an object under
      "video_balancer" whose "m3u8" is a non-empty string. */
  predicate HasManifestRef(full: map<string, Json>) {
    && "video_balancer" in full && full["video_balancer"].JObject?
    && "m3u8" in full["video_balancer"].fields
    && full["video_balancer"].fields["m3u8"].JString?
    && full["video_balancer"].fields["m3u8"].s != ""
  }

  /** fetchOptionsInit: a non-200 status, an unreadable body or a missing
      manifest reference is an error; a missing or non-string title is not. */
  function FetchOptionsInit(reply: HttpReply<Json>): (r: Result<PlayOptions>)
    ensures reply.Reply? && reply.status != StatusOK ==> r == Err(HttpStatus(reply.status))
    ensures r.Ok? <==>
      && reply.Reply? && reply.status == StatusOK && reply.body.Some?
      && reply.body.value.JObject? && HasManifestRef(reply.body.value.fields)
    ensures r.Ok? ==>
      var full := reply.body.value.fields;
      && r.value.m3u8 == full["video_balancer"].fields["m3u8"].s
      && r.value.title == (if "title" in full && full["title"].JString? then full["title"].s else "")
    ensures reply == Reply(StatusOK, Some(JNull)) ==> r == Err(M3u8Missing)
  {
    match reply
    case NetError => Err(NetworkError)
    case Reply(status, body) =>
      if status != StatusOK then Err(HttpStatus(status))
      else
        match body
        case None => Err(BodyUnreadable)
        case Some(doc) =>
          // decoding JSON null into a map leaves it nil; any other non-object is a decode error
          if !(doc.JObject? || doc.JNull?) then Err(BodyUnreadable)
          else
            var full := if doc.JObject? then doc.fields else map[];
            var m3u8 := StringField(ObjectField(full, "video_balancer"), "m3u8");
            if m3u8 == "" then Err(M3u8Missing)
            else Ok(PlayOptions(StringField(full, "title"), m3u8))
  }

  /** The init document that carries po, beside any other fields. */
  function InitDocument(po: PlayOptions, others: map<string, Json>): Json {
    JObject(others["title" := JString(po.title)]["video_balancer" := JObject(map["m3u8" := JString(po.m3u8)])])
  }

  /** Reading the init document of po gives po back. */
  lemma InitRoundTrip(po: PlayOptions, others: map<string, Json>)
    requires po.m3u8 != ""
    ensures FetchOptionsInit(Reply(StatusOK, Some(InitDocument(po, others)))) == Ok(po)
  {
    var full := InitDocument(po, others).fields;
    assert "title" != "video_balancer";
    assert full["title"] == JString(po.title);
  }

  // ---- 2) the play/options endpoint: strict decoding into playOptions ----

  /** fetchOptionsPlayOptions. Decoding into the typed struct is done by
      encoding/json and is an input: body is None when it failed. */
  function FetchOptionsPlayOptions(reply: HttpReply<PlayOptions>): (r: Result<PlayOptions>)
    ensures r.Ok? <==> reply.Reply? && reply.status == StatusOK && reply.body.Some? && reply.body.value.m3u8 != ""
    ensures r.Ok? ==> r.value == reply.body.value
    ensures reply.Reply? && reply.status != StatusOK ==> r == Err(HttpStatus(reply.status))
  {
    match reply
    case NetError => Err(NetworkError)
    case Reply(status, body) =>
      if status != StatusOK then Err(HttpStatus(status))
      else
        match body
        case None => Err(BodyUnreadable)
        case Some(po) => if po.m3u8 == "" then Err(M3u8Missing) else Ok(po)
  }

  // ---- 3) the HTML page: three regular expressions and an un-escape ----

  /** \s in Go's regular expressions: [\t\n\f\r ]. */
  predicate IsRegexSpace(c: char) {
    c == '\t' || c == '\n' || c as int == 0x0C || c == '\r' || c == ' '
  }

  /** The end of the run of \s starting at i (greedy \s*). */
  function SkipSpaces(s: string, i: nat): (j: nat)
    requires i <= |s|
    ensures i <= j <= |s|
    ensures j == |s| || !IsRegexSpace(s[j])
    ensures forall k :: i <= k < j ==> IsRegexSpace(s[k])
    decreases |s| - i
  {
    if i == |s| || !IsRegexSpace(s[i]) then i else SkipSpaces(s, i + 1)
  }

  /** The first position at or after i holding c, or |s| when there is none. */
  function IndexFrom(s: string, i: nat, c: char): (j: nat)
    requires i <= |s|
    ensures i <= j <= |s|
    ensures j < |s| ==> s[j] == c
    ensures forall k :: i <= k < j ==> s[k] != c
    decreases |s| - i
  {
    if i == |s| || s[i] == c then i else IndexFrom(s, i + 1, c)
  }

  /** `"key"\s*:\s*"([^"]+)"` anchored at position i: the captured group. The
      match at a given position is unique, since \s* is followed by a
      character outside \s and [^"]+ by '"'. */
  function QuotedValueAt(s: string, key: string, i: nat): (r: Option<string>)
    requires i <= |s|
    ensures r.Some? ==> r.value != [] && forall k :: 0 <= k < |r.value| ==> r.value[k] != '"'
  {
    var lit := "\"" + key + "\"";
    if |s| - i < |lit| || s[i..i + |lit|] != lit then None
    else
      var j := SkipSpaces(s, i + |lit|);
      if j == |s| || s[j] != ':' then None
      else
        var k := SkipSpaces(s, j + 1);
        if k == |s| || s[k] != '"' then None
        else
          var e := IndexFrom(s, k + 1, '"');
          if e == |s| || e == k + 1 then None else Some(s[k + 1..e])
  }

  /** The leftmost match of `"key"\s*:\s*"([^"]+)"` at or after from: the
      capture at the first position where the pattern matches, or nothing
      when it matches nowhere from there on. */
  function FindQuotedValue(s: string, key: string, from: nat): (r: Option<string>)
    requires from <= |s|
    ensures r.Some? ==> r.value != [] && forall k :: 0 <= k < |r.value| ==> r.value[k] != '"'
    decreases |s| - from
  {
    match QuotedValueAt(s, key, from)
    case Some(v) => Some(v)
    case None => if from == |s| then None else FindQuotedValue(s, key, from + 1)
  }

  /** `"video_balancer"\s*:\s*\{[^}]+\}` anchored at position i: the matched text. */
  function BalancerAt(s: string, i: nat): (r: Option<string>)
    requires i <= |s|
  {
    var lit := "\"video_balancer\"";
    if |s| - i < |lit| || s[i..i + |lit|] != lit then None
    else
      var j := SkipSpaces(s, i + |lit|);
      if j == |s| || s[j] != ':' then None
      else
        var k := SkipSpaces(s, j + 1);
        if k == |s| || s[k] != '{' then None
        else
          var e := IndexFrom(s, k + 1, '}');
          if e == |s| || e == k + 1 then None else Some(s[i..e + 1])
  }

  /** The leftmost video_balancer block at or after from: the block at the
      first position where the pattern matches, or nothing when it matches
      nowhere from there on. */
  function FindBalancer(s: string, from: nat): Option<string>
    requires from <= |s|
    decreases |s| - from
  {
    match BalancerAt(s, from)
    case Some(b) => Some(b)
    case None => if from == |s| then None else FindBalancer(s, from + 1)
  }

  /** FindQuotedValue is the leftmost match: i is the first position at or
      after from where the pattern matches, and the result is its capture;
      when nothing is found the pattern matches nowhere from there on. */
  lemma {:induction false} FindQuotedValueLeftmost(s: string, key: string, from: nat) returns (i: nat)
    requires from <= |s|
    ensures from <= i <= |s|
    ensures forall j :: from <= j < i ==> QuotedValueAt(s, key, j).None?
    ensures FindQuotedValue(s, key, from).Some? ==> QuotedValueAt(s, key, i) == FindQuotedValue(s, key, from)
    ensures FindQuotedValue(s, key, from).None? ==> i == |s| && QuotedValueAt(s, key, i).None?
    decreases |s| - from
  {
    if QuotedValueAt(s, key, from).None? && from < |s| {
      i := FindQuotedValueLeftmost(s, key, from + 1);
    } else {
      i := from;
    }
  }

  /** FindBalancer is the leftmost match: i is the first position at or
      after from where the pattern matches, and the result is its block;
      when nothing is found the pattern matches nowhere from there on. */
  lemma {:induction false} FindBalancerLeftmost(s: string, from: nat) returns (i: nat)
    requires from <= |s|
    ensures from <= i <= |s|
    ensures forall j :: from <= j < i ==> BalancerAt(s, j).None?
    ensures FindBalancer(s, from).Some? ==> BalancerAt(s, i) == FindBalancer(s, from)
    ensures FindBalancer(s, from).None? ==> i == |s| && BalancerAt(s, i).None?
    decreases |s| - from
  {
    if BalancerAt(s, from).None? && from < |s| {
      i := FindBalancerLeftmost(s, from + 1);
      var none := BalancerAt(s, from);
      assert forall j :: from + 1 <= j < i ==> BalancerAt(s, j).None?;
      assert none.None?;
    } else {
      i := from;
    }
  }

  /** The six characters `\u0026` that a page uses for '&' inside a string. */
  const Escaped: string := "\\u0026"

  /** strings.ReplaceAll(s, `\u0026`, "&"): left to right, non-overlapping. */
  function Unescape(s: string): string
    decreases |s|
  {
    if HasPrefix(s, Escaped) then "&" + Unescape(s[|Escaped|..])
    else if s == [] then []
    else [s[0]] + Unescape(s[1..])
  }

  ghost predicate NoEscapes(s: string) {
    forall i :: !OccursAt(s, Escaped, i)
  }

  /** No proper prefix of `\u0026` is also a suffix of it, so an occurrence
      that starts before a known occurrence and reaches into it cannot exist. */
  lemma EscapedHasNoBorder(a: string, rest: string)
    requires 0 < |a| < |Escaped|
    ensures !HasPrefix(a + Escaped + rest, Escaped)
  {
    var s := a + Escaped + rest;
    assert s[|a|] == '\\';
    assert s[..|Escaped|][|a|] == s[|a|];
    assert Escaped[|a|] != '\\';
  }

  /** Every literal `\u0026` becomes '&' and the text around it is un-escaped
      on its own: the occurrence splits the text. */
  lemma {:induction false} UnescapeSplits(a: string, b: string)
    ensures Unescape(a + Escaped + b) == Unescape(a) + "&" + Unescape(b)
    decreases |a|
  {
    var s := a + Escaped + b;
    if a == [] {
      assert s == Escaped + b;
      assert s[|Escaped|..] == b;
    } else if HasPrefix(s, Escaped) {
      if |a| < |Escaped| {
        EscapedHasNoBorder(a, b);
      }
      assert HasPrefix(a, Escaped) by {
        assert a[..|Escaped|] == s[..|Escaped|];
      }
      assert s[|Escaped|..] == a[|Escaped|..] + Escaped + b;
      UnescapeSplits(a[|Escaped|..], b);
    } else {
      assert HasPrefix(a, Escaped) ==> HasPrefix(s, Escaped) by {
        if |a| >= |Escaped| { assert s[..|Escaped|] == a[..|Escaped|]; }
      }
      assert s[1..] == a[1..] + Escaped + b;
      UnescapeSplits(a[1..], b);
    }
  }

  /** Text without `\u0026` is left as it is. */
  lemma {:induction false} UnescapeIdentity(s: string)
    requires NoEscapes(s)
    ensures Unescape(s) == s
    decreases |s|
  {
    assert !OccursAt(s, Escaped, 0);
    if s != [] {
      forall i ensures !OccursAt(s[1..], Escaped, i) {
        assert !OccursAt(s, Escaped, i + 1);
        if 0 <= i <= |s[1..]| - |Escaped| {
          assert s[1..][i..i + |Escaped|] == s[i + 1..i + 1 + |Escaped|];
        }
      }
      UnescapeIdentity(s[1..]);
    }
  }

  /** If the un-escaped text starts with p and p has no '&', the text itself
      starts with p. */
  lemma {:induction false} UnescapePrefix(t: string, p: string)
    requires forall k :: 0 <= k < |p| ==> p[k] != '&'
    requires HasPrefix(Unescape(t), p)
    ensures HasPrefix(t, p)
    decreases |p|
  {
    if p != [] {
      assert Unescape(t)[0] == p[0] != '&';
      assert !HasPrefix(t, Escaped);
      assert t != [];
      assert Unescape(t) == [t[0]] + Unescape(t[1..]);
      assert HasPrefix(Unescape(t[1..]), p[1..]) by {
        assert Unescape(t[1..])[..|p| - 1] == Unescape(t)[1..|p|];
      }
      UnescapePrefix(t[1..], p[1..]);
    }
  }

  /** After un-escaping, no `\u0026` is left. */
  lemma {:induction false} UnescapeLeavesNoEscapes(s: string)
    ensures NoEscapes(Unescape(s))
    decreases |s|
  {
    var u := Unescape(s);
    if HasPrefix(s, Escaped) {
      UnescapeLeavesNoEscapes(s[|Escaped|..]);
      var rest := Unescape(s[|Escaped|..]);
      assert u == "&" + rest;
      forall i ensures !OccursAt(u, Escaped, i) {
        if i == 0 {
          assert u[0] == '&';
          if |u| >= |Escaped| { assert u[..|Escaped|][0] == '&'; }
        } else if 0 < i <= |u| - |Escaped| {
          assert u[i..i + |Escaped|] == rest[i - 1..i - 1 + |Escaped|];
          assert !OccursAt(rest, Escaped, i - 1);
        }
      }
    } else if s != [] {
      UnescapeLeavesNoEscapes(s[1..]);
      var rest := Unescape(s[1..]);
      assert u == [s[0]] + rest;
      if HasPrefix(rest, "u0026") {
        UnescapePrefix(s[1..], "u0026");
      }
      forall i ensures !OccursAt(u, Escaped, i) {
        if i == 0 {
          assert Escaped == ['\\'] + "u0026";
          if |u| >= |Escaped| {
            assert u[..|Escaped|] == [s[0]] + rest[..5];
            assert u[..|Escaped|][0] == s[0] && u[..|Escaped|][1..] == rest[..5];
            assert Escaped[0] == '\\' && Escaped[1..] == "u0026";
            assert HasPrefix(s[1..], "u0026") && s[0] == '\\' ==> HasPrefix(s, Escaped) by {
              if |s| >= |Escaped| {
                assert s[..|Escaped|] == [s[0]] + s[1..][..5];
              }
            }
          }
        } else if 0 < i <= |u| - |Escaped| {
          assert u[i..i + |Escaped|] == rest[i - 1..i - 1 + |Escaped|];
          assert !OccursAt(rest, Escaped, i - 1);
        }
      }
    }
  }

  /** fetchOptionsFromHTML: the first video_balancer block must exist and
      carry a quoted m3u8 value, which is un-escaped; the title is the first
      quoted "title" value anywhere on the page, or "" when there is none. */
  function FetchOptionsFromHTML(reply: HttpReply<string>): (r: Result<PlayOptions>)
    ensures reply.Reply? && reply.status != StatusOK ==> r == Err(HttpStatus(reply.status))
    ensures r.Ok? <==>
      && reply.Reply? && reply.status == StatusOK && reply.body.Some?
      && FindBalancer(reply.body.value, 0).Some?
      && FindQuotedValue(FindBalancer(reply.body.value, 0).value, "m3u8", 0).Some?
    ensures (reply.Reply? && reply.status == StatusOK && reply.body.Some?
             && FindBalancer(reply.body.value, 0).None?) ==> r == Err(BalancerMissing)
    ensures r.Ok? ==> r.value.m3u8 != "" && NoEscapes(r.value.m3u8)
    ensures r.Ok? ==> r.value.m3u8 == Unescape(FindQuotedValue(FindBalancer(reply.body.value, 0).value, "m3u8", 0).value)
    ensures r.Ok? && FindQuotedValue(reply.body.value, "title", 0).None? ==> r.value.title == ""
    ensures r.Ok? && FindQuotedValue(reply.body.value, "title", 0).Some? ==>
      r.value.title == FindQuotedValue(reply.body.value, "title", 0).value
  {
    match reply
    case NetError => Err(NetworkError)
    case Reply(status, body) =>
      if status != StatusOK then Err(HttpStatus(status))
      else
        match body
        case None => Err(BodyUnreadable)
        case Some(page) =>
          match FindBalancer(page, 0)
          case None => Err(BalancerMissing)
          case Some(block) =>
            match FindQuotedValue(block, "m3u8", 0)
            case None => Err(M3u8Missing)
            case Some(raw) =>
              var title := match FindQuotedValue(page, "title", 0) case Some(t) => t case None => "";
              assert raw[..1] == [raw[0]];
              assert HasPrefix(raw, Escaped) ==> HasPrefix(Unescape(raw), "&");
              UnescapeLeavesNoEscapes(raw);
              Ok(PlayOptions(title, Unescape(raw)))
  }

  /** A search that finds nothing before position i continues from i. */
  lemma {:induction false} FindQuotedValueSkips(s: string, key: string, from: nat, i: nat)
    requires from <= i <= |s|
    requires forall j :: from <= j < i ==> QuotedValueAt(s, key, j).None?
    ensures FindQuotedValue(s, key, from) == FindQuotedValue(s, key, i)
    decreases i - from
  {
    if from < i {
      FindQuotedValueSkips(s, key, from + 1, i);
    }
  }

  const BalancerOpen: string := "\"video_balancer\":{\"m3u8\":\""

  /** A video_balancer block placed after a prefix in which the pattern
      matches nowhere is the page's first video_balancer block. */
  lemma {:induction false} BalancerOfPage(pre: string, v: string, rest: string)
    requires forall k :: 0 <= k < |v| ==> v[k] != '}'
    requires forall j :: 0 <= j < |pre| ==> BalancerAt(pre + BalancerOpen + v + "\"}" + rest, j).None?
    ensures FindBalancer(pre + BalancerOpen + v + "\"}" + rest, 0) == Some(BalancerOpen + v + "\"}")
  {
    var page := pre + BalancerOpen + v + "\"}" + rest;
    var block := BalancerOpen + v + "\"}";
    var p := |pre|;
    assert page == pre + block + rest;
    assert page[p..p + |block|] == block;
    BlockShape(v, block);
    BalancerOfShapedPage(page, block, v, p);
    FindBalancerSkips(page, 0, p);
  }

  /** A search that finds nothing before position i continues from i. */
  lemma {:induction false} FindBalancerSkips(s: string, from: nat, i: nat)
    requires from <= i <= |s|
    requires forall j :: from <= j < i ==> BalancerAt(s, j).None?
    ensures FindBalancer(s, from) == FindBalancer(s, i)
    decreases i - from
  {
    if from < i {
      FindBalancerSkips(s, from + 1, i);
    }
  }

  lemma BalancerOfShapedPage(page: string, block: string, v: string, p: nat)
    requires forall k :: 0 <= k < |v| ==> v[k] != '}'
    requires |block| == |BalancerOpen| + |v| + 2 && p + |block| <= |page| && page[p..p + |block|] == block
    requires block[..|BalancerOpen|] == BalancerOpen
    requires block[|BalancerOpen|..|BalancerOpen| + |v|] == v
    requires block[|BalancerOpen| + |v|] == '"' && block[|BalancerOpen| + |v| + 1] == '}'
    ensures BalancerAt(page, p) == Some(block)
  {
    var n := |BalancerOpen|;
    BlockOpens(page, block, p);
    BlockCloses(page, block, v, p);
    assert page[p..p + n + |v| + 2] == block;
  }

  /** The page holds `"video_balancer":{` at p. */
  lemma BlockOpens(page: string, block: string, p: nat)
    requires |BalancerOpen| <= |block| && p + |block| <= |page| && page[p..p + |block|] == block
    requires block[..|BalancerOpen|] == BalancerOpen
    ensures page[p..p + 16] == "\"video_balancer\""
    ensures page[p + 16] == ':' && page[p + 17] == '{'
    ensures SkipSpaces(page, p + 16) == p + 16 && SkipSpaces(page, p + 17) == p + 17
  {
    assert page[p..p + 16] == block[..16] == BalancerOpen[..16];
    assert page[p + 16] == block[16] == BalancerOpen[16];
    assert page[p + 17] == block[17] == BalancerOpen[17];
  }

  /** The first '}' after the opening brace is the one that ends the block. */
  lemma BlockCloses(page: string, block: string, v: string, p: nat)
    requires forall k :: 0 <= k < |v| ==> v[k] != '}'
    requires |block| == |BalancerOpen| + |v| + 2 && p + |block| <= |page| && page[p..p + |block|] == block
    requires block[..|BalancerOpen|] == BalancerOpen
    requires block[|BalancerOpen|..|BalancerOpen| + |v|] == v
    requires block[|BalancerOpen| + |v|] == '"' && block[|BalancerOpen| + |v| + 1] == '}'
    ensures IndexFrom(page, p + 18, '}') == p + |BalancerOpen| + |v| + 1
  {
    var n := |BalancerOpen|;
    forall k | p + 18 <= k < p + n + |v| + 1 ensures page[k] != '}' {
      assert page[k] == block[k - p];
      if k - p < n {
        assert block[k - p] == BalancerOpen[k - p];
      } else if k - p < n + |v| {
        assert block[k - p] == v[k - p - n];
      }
    }
    assert page[p + n + |v| + 1] == block[n + |v| + 1] == '}';
    IndexFromFinds(page, p + 18, '}', p + n + |v| + 1);
  }

  /** IndexFrom stops at the first c at or after i. */
  lemma {:induction false} IndexFromFinds(s: string, i: nat, c: char, j: nat)
    requires i <= j < |s| && s[j] == c
    requires forall k :: i <= k < j ==> s[k] != c
    ensures IndexFrom(s, i, c) == j
    decreases j - i
  {
    if i < j {
      IndexFromFinds(s, i + 1, c, j);
    }
  }

  /** No "m3u8" key starts inside the opening `"video_balancer":{`. */
  lemma NoM3u8KeyBefore(block: string, j: nat)
    requires |block| >= |BalancerOpen| && block[..|BalancerOpen|] == BalancerOpen
    requires j < 18
    ensures QuotedValueAt(block, "m3u8", j).None?
  {
    var lit := "\"m3u8\"";
    assert block[j] == BalancerOpen[j] && block[j + 1] == BalancerOpen[j + 1];
    if j == 0 || j == 15 {
      assert block[j..j + |lit|][1] == block[j + 1];
    } else {
      assert block[j..j + |lit|][0] == block[j];
    }
  }

  /** The match at the "m3u8" key of the block captures v. */
  lemma M3u8KeyCaptures(block: string, v: string)
    requires forall k :: 0 <= k < |v| ==> v[k] != '"'
    requires v != []
    requires |block| == |BalancerOpen| + |v| + 2
    requires block[..|BalancerOpen|] == BalancerOpen
    requires block[|BalancerOpen|..|BalancerOpen| + |v|] == v
    requires block[|BalancerOpen| + |v|] == '"'
    ensures QuotedValueAt(block, "m3u8", 18) == Some(v)
  {
    var n := |BalancerOpen|;
    assert block[18..24] == BalancerOpen[18..24] == "\"m3u8\"";
    assert block[24] == BalancerOpen[24] == ':';
    assert block[25] == BalancerOpen[25] == '"';
    assert SkipSpaces(block, 24) == 24;
    assert SkipSpaces(block, 25) == 25;
    assert IndexFrom(block, 26, '"') == n + |v| by {
      assert forall k :: n <= k < n + |v| ==> block[k] == v[k - n];
    }
  }

  /** The m3u8 value of that block is v. */
  lemma M3u8OfBlock(v: string)
    requires v != []
    requires forall k :: 0 <= k < |v| ==> v[k] != '"'
    ensures FindQuotedValue(BalancerOpen + v + "\"}", "m3u8", 0) == Some(v)
  {
    var block := BalancerOpen + v + "\"}";
    BlockShape(v, block);
    M3u8OfShapedBlock(block, v);
  }

  lemma M3u8OfShapedBlock(block: string, v: string)
    requires forall k :: 0 <= k < |v| ==> v[k] != '"'
    requires v != []
    requires |block| == |BalancerOpen| + |v| + 2
    requires block[..|BalancerOpen|] == BalancerOpen
    requires block[|BalancerOpen|..|BalancerOpen| + |v|] == v
    requires block[|BalancerOpen| + |v|] == '"'
    ensures FindQuotedValue(block, "m3u8", 0) == Some(v)
  {
    NoM3u8KeyInOpening(block);
    FindQuotedValueSkips(block, "m3u8", 0, 18);
    M3u8KeyCaptures(block, v);
  }

  lemma BlockShape(v: string, block: string)
    requires block == BalancerOpen + v + "\"}"
    ensures |block| == |BalancerOpen| + |v| + 2
    ensures block[..|BalancerOpen|] == BalancerOpen
    ensures block[|BalancerOpen|..|BalancerOpen| + |v|] == v
    ensures block[|BalancerOpen| + |v|] == '"' && block[|BalancerOpen| + |v| + 1] == '}'
  {
  }

  lemma NoM3u8KeyInOpening(block: string)
    requires |block| >= |BalancerOpen| && block[..|BalancerOpen|] == BalancerOpen
    ensures forall j :: 0 <= j < 18 ==> QuotedValueAt(block, "m3u8", j).None?
  {
    forall j | 0 <= j < 18 ensures QuotedValueAt(block, "m3u8", j).None? {
      NoM3u8KeyBefore(block, j);
    }
  }

  /** A page whose first video_balancer block holds the escaped reference v
      gives back v un-escaped, whatever comes before and after the block. */
  lemma {:induction false} HtmlRoundTrip(pre: string, v: string, rest: string)
    requires v != []
    requires forall k :: 0 <= k < |v| ==> v[k] != '"' && v[k] != '}'
    requires forall j :: 0 <= j < |pre| ==> BalancerAt(pre + BalancerOpen + v + "\"}" + rest, j).None?
    ensures var r := FetchOptionsFromHTML(Reply(StatusOK, Some(pre + BalancerOpen + v + "\"}" + rest)));
      r.Ok? && r.value.m3u8 == Unescape(v)
  {
    var block := BalancerOpen + v + "\"}";
    BalancerOfPage(pre, v, rest);
    M3u8OfBlock(v);
    HtmlOfLocatedBlock(pre + BalancerOpen + v + "\"}" + rest, block, v);
  }

  /** A page whose balancer block carries the quoted value v is read as v
      un-escaped. */
  lemma HtmlOfLocatedBlock(page: string, block: string, v: string)
    requires FindBalancer(page, 0) == Some(block)
    requires FindQuotedValue(block, "m3u8", 0) == Some(v)
    ensures var r := FetchOptionsFromHTML(Reply(StatusOK, Some(page)));
      r.Ok? && r.value.m3u8 == Unescape(v)
  {
  }

  // ---- the cascade -------------------------------------------------------

  /** A strategy outcome the locator accepts: success with a non-empty reference. */
  predicate Usable(o: Result<PlayOptions>) {
    o.Ok? && o.value.m3u8 != ""
  }

  /** The located options and how many strategies were contacted. */
  datatype Located = Located(options: Result<PlayOptions>, attempts: nat)

  /** fetchOptions: init, then play/options, then the HTML page; a strategy is
      contacted only when every earlier one failed or gave an empty reference. */
  function FetchOptions(init: Result<PlayOptions>, play: Result<PlayOptions>, html: Result<PlayOptions>): (r: Located)
    ensures 1 <= r.attempts <= 3
    ensures r.attempts >= 2 ==> !Usable(init)
    ensures r.attempts == 3 ==> !Usable(play)
    ensures r.options.Ok? ==> Usable(r.options) && r.options == [init, play, html][r.attempts - 1]
    ensures r.options.Err? <==> !Usable(init) && !Usable(play) && !Usable(html)
    ensures r.options.Err? ==> r.options.error == ManifestNotFound && r.attempts == 3
  {
    if Usable(init) then Located(init, 1)
    else if Usable(play) then Located(play, 2)
    else if Usable(html) then Located(html, 3)
    else Located(Err(ManifestNotFound), 3)
  }

  /** Reference definition of the cascade as an ordered list of strategy
      outcomes: the position of the first usable one. */
  function FirstUsable(outcomes: seq<Result<PlayOptions>>): (k: Option<nat>)
    ensures k.Some? ==> k.value < |outcomes| && Usable(outcomes[k.value])
    ensures k.Some? ==> forall j :: 0 <= j < k.value ==> !Usable(outcomes[j])
    ensures k.None? ==> forall j :: 0 <= j < |outcomes| ==> !Usable(outcomes[j])
  {
    if outcomes == [] then None
    else if Usable(outcomes[0]) then Some(0)
    else match FirstUsable(outcomes[1..])
      case None => None
      case Some(k) => Some(k + 1)
  }

  /** The hand-written cascade is the list form over [init, play, html]. */
  lemma FetchOptionsIsFirstUsable(init: Result<PlayOptions>, play: Result<PlayOptions>, html: Result<PlayOptions>)
    ensures var k := FirstUsable([init, play, html]);
      && (k.Some? ==> FetchOptions(init, play, html) == Located([init, play, html][k.value], k.value + 1))
      && (k.None? ==> FetchOptions(init, play, html).options == Err(ManifestNotFound))
  {
    var k := FirstUsable([init, play, html]);
    var outs := [init, play, html];
    if k.Some? {
      assert outs[0] == init && outs[1] == play && outs[2] == html;
    } else {
      assert !Usable(outs[0]) && !Usable(outs[1]) && !Usable(outs[2]);
    }
  }
}
