/** Variant selection: a master playlist is narrowed to its highest-bandwidth
    variant, a media playlist is used as it is. Decoding the playlist is done by
    an HLS library and is an input here (Manifest); resolving a relative
    reference against the manifest URL (section 5.2 of RFC 3986, done by
    net/url) is the function parameter `join`, which gives None when
    url.Parse rejects the base or the reference. */
module Variant {
  import opened Wrappers
  import opened Text

  /** One rendition listed in a master playlist. */
  datatype Variant = Variant(bandwidth: nat, uri: string)

  /** A fetched playlist: its bytes, the master decoding (None when it
      failed) and whether it decodes as a media playlist. */
  datatype Manifest = Manifest(payload: seq<bv8>, master: Option<seq<Variant>>, isMedia: bool)

  const ExcerptLimit: nat := 200

  /** resolveURL: references that already start with http:// or https:// are
      returned unchanged; any other reference is resolved against the base.
      The parse errors are discarded, so a base or reference that does not
      parse leaves a nil *url.URL that ResolveReference dereferences: None
      here stands for that panic. */
  function ResolveURL(base: string, ref: string, join: (string, string) -> Option<string>): (r: Option<string>)
    ensures HasPrefix(ref, "http://") || HasPrefix(ref, "https://") ==> r == Some(ref)
    ensures !HasPrefix(ref, "http://") && !HasPrefix(ref, "https://") ==> r == join(base, ref)
    ensures r.None? ==> join(base, ref).None?
  {
    if HasPrefix(ref, "http://") || HasPrefix(ref, "https://") then Some(ref) else join(base, ref)
  }

  /** The outcome of returning a resolved reference: the URL, or the panic. */
  function Resolved(u: Option<string>): (r: Result<string>)
    ensures r.Ok? <==> u.Some?
    ensures u.Some? ==> r.value == u.value
    ensures u.None? ==> r.error == Panicked
  {
    if u.Some? then Ok(u.value) else Err(Panicked)
  }

  predicate SortedByBandwidth(s: seq<Variant>) {
    forall i, j :: 0 <= i < j < |s| ==> s[i].bandwidth >= s[j].bandwidth
  }

  /** vs[k] has a bandwidth at least that of every variant in vs. */
  predicate IsBest(vs: seq<Variant>, k: int) {
    0 <= k < |vs| && forall j :: 0 <= j < |vs| ==> vs[j].bandwidth <= vs[k].bandwidth
  }

  /** The sort.Slice call: orders the variants by decreasing bandwidth, in
      place. Equal bandwidths may come out in any order, as with sort.Slice,
      which is not stable. */
  method SortByBandwidth(a: array<Variant>)
    modifies a
    ensures SortedByBandwidth(a[..])
    ensures multiset(a[..]) == multiset(old(a[..]))
  {
    if a.Length == 0 {
      return;
    }
    var i := 1;
    while i < a.Length
      invariant 1 <= i <= a.Length
      invariant SortedByBandwidth(a[..i])
      invariant multiset(a[..]) == multiset(old(a[..]))
    {
      Sink(a, i);
      i := i + 1;
    }
    assert a[..a.Length] == a[..];
  }

  /** One insertion step: a[i] moves left past every lighter variant of the
      sorted prefix a[..i]. */
  method Sink(a: array<Variant>, i: nat)
    requires i < a.Length && SortedByBandwidth(a[..i])
    modifies a
    ensures SortedByBandwidth(a[..i + 1])
    ensures multiset(a[..]) == multiset(old(a[..]))
  {
    var j := i;
    while j > 0 && a[j - 1].bandwidth < a[j].bandwidth
      invariant 0 <= j <= i
      invariant forall p, q :: 0 <= p < q <= i && p != j && q != j ==> a[p].bandwidth >= a[q].bandwidth
      invariant forall q :: j < q <= i ==> a[q].bandwidth < a[j].bandwidth
      invariant multiset(a[..]) == multiset(old(a[..]))
    {
      Swap(a, j);
      j := j - 1;
    }
  }

  /** Exchanges a[j - 1] and a[j]. */
  method Swap(a: array<Variant>, j: nat)
    requires 0 < j < a.Length
    modifies a
    ensures a[..] == old(a[..])[j - 1 := old(a[j])][j := old(a[j - 1])]
    ensures multiset(a[..]) == multiset(old(a[..]))
  {
    a[j - 1], a[j] := a[j], a[j - 1];
  }

  /** The first element of a list sorted by decreasing bandwidth is a best one. */
  lemma SortedHeadIsBest(sorted: seq<Variant>, vs: seq<Variant>)
    requires |vs| > 0
    requires SortedByBandwidth(sorted) && multiset(sorted) == multiset(vs)
    ensures exists k :: IsBest(vs, k) && vs[k] == sorted[0]
  {
    assert sorted[0] in multiset(vs) by {
      assert |sorted| == |vs| by {
        assert |multiset(sorted)| == |multiset(vs)|;
      }
      assert sorted[0] in multiset(sorted);
    }
    var k :| 0 <= k < |vs| && vs[k] == sorted[0];
    forall j | 0 <= j < |vs| ensures vs[j].bandwidth <= vs[k].bandwidth {
      assert vs[j] in multiset(sorted);
      var p :| 0 <= p < |sorted| && sorted[p] == vs[j];
    }
    assert IsBest(vs, k);
  }

  /** The diagnostic excerpt: at most the first 200 bytes of the payload. */
  function Excerpt(payload: seq<bv8>): (e: seq<bv8>)
    ensures |e| <= ExcerptLimit && |e| <= |payload| && e == payload[..|e|]
    ensures |payload| <= ExcerptLimit ==> e == payload
  {
    if |payload| > ExcerptLimit then payload[..ExcerptLimit] else payload
  }

  /** The fetched playlist yields a URL: a 200 reply whose body was read and
      decodes as a master playlist with variants or as a media playlist. */
  predicate Resolvable(reply: HttpReply<Manifest>) {
    && reply.Reply? && reply.status == StatusOK && reply.body.Some?
    && ((reply.body.value.master.Some? && |reply.body.value.master.value| > 0) || reply.body.value.isMedia)
  }

  /** Some variant of maximal bandwidth in the master playlist of a 200
      reply cannot be resolved, so the call may panic (which of the equally
      good variants the unstable sort puts first is not determined). */
  ghost predicate MayPanic(url: string, reply: HttpReply<Manifest>, join: (string, string) -> Option<string>) {
    && reply.Reply? && reply.status == StatusOK && reply.body.Some?
    && reply.body.value.master.Some?
    && exists k :: IsBest(reply.body.value.master.value, k)
                   && ResolveURL(url, reply.body.value.master.value[k].uri, join).None?
  }

  /** The error pickBestVariant reports for a playlist that yields no URL. */
  function ManifestFailure(reply: HttpReply<Manifest>): Error {
    match reply
    case NetError => NetworkError
    case Reply(status, body) =>
      if status != StatusOK then HttpStatus(status)
      else if body.None? then BodyUnreadable
      else UnrecognizedManifest(Excerpt(body.value.payload))
  }

  /** pickBestVariant: fetches the manifest; from a master playlist with at
      least one variant returns the (resolved) URI of a variant of maximal
      bandwidth; otherwise a media playlist is returned as the input URL;
      otherwise fails with an excerpt of the payload. */
  method PickBestVariant(url: string, reply: HttpReply<Manifest>, join: (string, string) -> Option<string>)
    returns (r: Result<string>)
    ensures reply.NetError? ==> r == Err(NetworkError)
    ensures reply.Reply? && reply.status != StatusOK ==> r == Err(HttpStatus(reply.status))
    ensures reply.Reply? && reply.status == StatusOK && reply.body.None? ==> r == Err(BodyUnreadable)
    ensures reply.Reply? && reply.status == StatusOK && reply.body.Some? ==>
      var m := reply.body.value;
      && (m.master.Some? && |m.master.value| > 0 ==>
            exists k :: IsBest(m.master.value, k) && r == Resolved(ResolveURL(url, m.master.value[k].uri, join)))
      && (!(m.master.Some? && |m.master.value| > 0) && m.isMedia ==> r == Ok(url))
      && (!(m.master.Some? && |m.master.value| > 0) && !m.isMedia ==> r == Err(UnrecognizedManifest(Excerpt(m.payload))))
    ensures r.Ok? ==> Resolvable(reply)
    ensures !Resolvable(reply) ==> r == Err(ManifestFailure(reply))
    ensures Resolvable(reply) && !MayPanic(url, reply, join) ==> r.Ok?
    ensures r == Err(Panicked) ==> Resolvable(reply) && MayPanic(url, reply, join)
  {
    match reply
    case NetError => return Err(NetworkError);
    case Reply(status, body) =>
      if status != StatusOK {
        return Err(HttpStatus(status));
      }
      if body.None? {
        return Err(BodyUnreadable);
      }
      var m := body.value;
      if m.master.Some? && |m.master.value| > 0 {
        var vs := m.master.value;
        var a := new Variant[|vs|](i requires 0 <= i < |vs| => vs[i]);
        assert a[..] == vs;
        SortByBandwidth(a);
        SortedHeadIsBest(a[..], vs);
        return Resolved(ResolveURL(url, a[0].uri, join));
      }
      if m.isMedia {
        return Ok(url);
      }
      return Err(UnrecognizedManifest(Excerpt(m.payload)));
  }
}
