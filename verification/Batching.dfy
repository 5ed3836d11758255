/** Splitting one server's segment names into asks under a URL cap (_metadata_batches and _batch_bytes in
  * adapters/pinot/engine.py). */
module Batching {
  import opened Prelude

  const MAX_URL_BYTES: nat := 6144
  const MAX_REQUESTS: nat := 64
  const RETRIES: nat := 2
  const MOST_BATCHES: nat := MAX_REQUESTS / (1 + RETRIES)

  /** The request line around the names: path and bulk-query lengths, and the encoded length of one name's parameter. */
  datatype Url = Url(path: nat, query: nat, piece: string -> nat)

  function Fixed(url: Url): nat { url.path + url.query }

  /** A name joins its batch with "&", unless it is the whole query. */
  function FirstSep(url: Url): nat { if Fixed(url) > url.path then 1 else 0 }

  function Pieces(url: Url, names: seq<string>): nat {
    if names == [] then 0 else Pieces(url, names[..|names| - 1]) + url.piece(names[|names| - 1])
  }

  /** The length of the request asking for these names. */
  function BatchBytes(url: Url, names: seq<string>): nat
    requires names != []
  {
    Fixed(url) + FirstSep(url) + Pieces(url, names) + |names| - 1
  }

  predicate Fits(url: Url, names: seq<string>)
    requires names != []
  {
    BatchBytes(url, names) <= MAX_URL_BYTES
  }

  predicate TooLong(url: Url, name: string) { Fixed(url) + FirstSep(url) + url.piece(name) > MAX_URL_BYTES }

  /** How many of the first names fit one request, from k on. */
  function FitCount(url: Url, names: seq<string>, k: nat): (count: nat)
    requires k <= |names|
    ensures k <= count <= |names|
    decreases |names| - k
  {
    if k < |names| && Fits(url, names[..k + 1]) then FitCount(url, names, k + 1) else k
  }

  /** As many names as fit, again and again. */
  function Greedy(url: Url, names: seq<string>): seq<seq<string>>
    decreases |names|
  {
    if names == [] then []
    else
      var k := Max(1, FitCount(url, names, 0));
      [names[..k]] + Greedy(url, names[k..])
  }

  function AllGreedy(url: Url, shares: seq<seq<string>>): seq<seq<string>> {
    if shares == [] then []
    else AllGreedy(url, shares[..|shares| - 1]) + Greedy(url, shares[|shares| - 1])
  }

  lemma {:induction false} PiecesConcat(url: Url, a: seq<string>, b: seq<string>)
    ensures Pieces(url, a + b) == Pieces(url, a) + Pieces(url, b)
    decreases |b|
  {
    if b == [] {
      assert a + b == a;
    } else {
      assert (a + b)[..|a + b| - 1] == a + b[..|b| - 1];
      PiecesConcat(url, a, b[..|b| - 1]);
    }
  }

  /** Any stretch of a batch that fits, fits. */
  lemma StretchFits(url: Url, names: seq<string>, lo: nat, hi: nat)
    requires lo < hi <= |names| && Fits(url, names)
    ensures Fits(url, names[lo..hi])
  {
    PiecesConcat(url, names[..lo], names[lo..hi]);
    PiecesConcat(url, names[..hi], names[hi..]);
    assert names[..lo] + names[lo..hi] == names[..hi] && names[..hi] + names[hi..] == names;
  }

  lemma PrefixFits(url: Url, names: seq<string>, lo: nat, hi: nat)
    requires 0 < lo <= hi <= |names| && Fits(url, names[..hi])
    ensures Fits(url, names[..lo])
  {
    StretchFits(url, names[..hi], 0, lo);
    assert names[..hi][0..lo] == names[..lo];
  }

  lemma {:induction false} FitCountAtLeast(url: Url, names: seq<string>, k: nat, count: nat)
    requires k <= count <= |names| && (count > 0 ==> Fits(url, names[..count]))
    ensures FitCount(url, names, k) >= count
    decreases count - k
  {
    if k < count {
      PrefixFits(url, names, k + 1, count);
      FitCountAtLeast(url, names, k + 1, count);
    }
  }

  lemma {:induction false} FitCountFits(url: Url, names: seq<string>, k: nat)
    requires k <= |names| && (k > 0 ==> Fits(url, names[..k]))
    ensures FitCount(url, names, k) > 0 ==> Fits(url, names[..FitCount(url, names, k)])
    decreases |names| - k
  {
    if k < |names| && Fits(url, names[..k + 1]) {
      FitCountFits(url, names, k + 1);
    }
  }

  lemma FitCountIs(url: Url, names: seq<string>, count: nat)
    requires 0 < count <= |names| && Fits(url, names[..count])
    requires count < |names| ==> !Fits(url, names[..count + 1])
    ensures FitCount(url, names, 0) == count
  {
    FitCountAtLeast(url, names, 0, count);
    var k := FitCount(url, names, 0);
    FitCountFits(url, names, 0);
    if k > count {
      PrefixFits(url, names, count + 1, k);
    }
  }

  function Flatten(parts: seq<seq<string>>): seq<string> {
    if parts == [] then [] else parts[0] + Flatten(parts[1..])
  }

  /** A split into contiguous, non-empty requests that all fit. */
  ghost predicate IsSplit(url: Url, parts: seq<seq<string>>, names: seq<string>) {
    Flatten(parts) == names && forall i :: 0 <= i < |parts| ==> parts[i] != [] && Fits(url, parts[i])
  }

  lemma SplitOneMore(url: Url, part: seq<string>, parts: seq<seq<string>>, names: seq<string>)
    requires part != [] && Fits(url, part) && IsSplit(url, parts, names)
    ensures IsSplit(url, [part] + parts, part + names)
  {
    assert ([part] + parts)[1..] == parts;
  }

  lemma FirstFits(url: Url, names: seq<string>)
    requires names != [] && !TooLong(url, names[0])
    ensures FitCount(url, names, 0) > 0 && Fits(url, names[..FitCount(url, names, 0)])
  {
    BatchOneMore(url, [], names[0]);
    assert [] + [names[0]] == names[..1];
    FitCountAtLeast(url, names, 0, 1);
    FitCountFits(url, names, 0);
  }

  /** The greedy split loses and reorders nothing, and every request fits. */
  lemma {:induction false} GreedyIsSplit(url: Url, names: seq<string>)
    requires forall i :: 0 <= i < |names| ==> !TooLong(url, names[i])
    ensures IsSplit(url, Greedy(url, names), names)
    decreases |names|
  {
    if names != [] {
      FirstFits(url, names);
      var k := FitCount(url, names, 0);
      GreedyIsSplit(url, names[k..]);
      SplitOneMore(url, names[..k], Greedy(url, names[k..]), names[k..]);
      assert names[..k] + names[k..] == names;
    }
  }

  /** Starting later never needs more requests: the greedy split stays ahead of any other. */
  lemma {:induction false} GreedyStaysAhead(url: Url, parts: seq<seq<string>>, from: nat)
    requires IsSplit(url, parts, Flatten(parts)) && from <= |Flatten(parts)|
    ensures |Greedy(url, Flatten(parts)[from..])| <= |parts|
    decreases |parts|
  {
    if parts != [] {
      var p, later, y := parts[0], Flatten(parts[1..]), Flatten(parts)[from..];
      assert forall i :: 0 <= i < |parts[1..]| ==> parts[1..][i] == parts[i + 1];
      if from >= |p| {
        assert y == later[from - |p|..];
        GreedyStaysAhead(url, parts[1..], from - |p|);
      } else {
        var q := p[from..];
        assert y == q + later;
        StretchFits(url, p, from, |p|);
        assert p[from..|p|] == q;
        assert y[..|q|] == q;
        FitCountAtLeast(url, y, 0, |q|);
        var k := FitCount(url, y, 0);
        assert y[k..] == later[k - |q|..];
        GreedyStaysAhead(url, parts[1..], k - |q|);
      }
    }
  }

  /** No contiguous split of one server's names into fitting requests uses fewer of them. */
  lemma GreedyIsFewest(url: Url, parts: seq<seq<string>>, names: seq<string>)
    requires IsSplit(url, parts, names)
    ensures |Greedy(url, names)| <= |parts|
  {
    GreedyStaysAhead(url, parts, 0);
    assert names[0..] == names;
  }

  function Sizes(splits: seq<seq<seq<string>>>): seq<nat> {
    seq(|splits|, s requires 0 <= s < |splits| => |splits[s]|)
  }

  /** Nor does any choice of splits over all servers. */
  lemma {:induction false} AllGreedyIsFewest(url: Url, splits: seq<seq<seq<string>>>, shares: seq<seq<string>>)
    requires |splits| == |shares| && forall s :: 0 <= s < |shares| ==> IsSplit(url, splits[s], shares[s])
    ensures |AllGreedy(url, shares)| <= Sum(Sizes(splits))
    decreases |shares|
  {
    if shares != [] {
      var n := |shares| - 1;
      GreedyIsFewest(url, splits[n], shares[n]);
      AllGreedyIsFewest(url, splits[..n], shares[..n]);
      assert Sizes(splits) == Sizes(splits[..n]) + [|splits[n]|];
      SumAppend(Sizes(splits[..n]), [|splits[n]|]);
    }
  }

  lemma {:induction false} AllGreedyGrows(url: Url, shares: seq<seq<string>>, s: nat)
    requires s <= |shares|
    ensures |AllGreedy(url, shares[..s])| <= |AllGreedy(url, shares)|
    decreases |shares| - s
  {
    if s < |shares| {
      AllGreedyGrows(url, shares, s + 1);
      assert shares[..s + 1][..s] == shares[..s];
    } else {
      assert shares[..s] == shares;
    }
  }

  ghost predicate AnyTooLong(url: Url, shares: seq<seq<string>>) {
    exists s, i :: 0 <= s < |shares| && 0 <= i < |shares[s]| && TooLong(url, shares[s][i])
  }

  /** A full batch closes exactly where the greedy split does. */
  lemma GreedyCloses(url: Url, done: seq<seq<string>>, batch: seq<string>, rest: seq<string>)
    requires batch != [] && Fits(url, batch)
    requires rest != [] ==> !Fits(url, batch + [rest[0]])
    ensures done + Greedy(url, batch + rest) == (done + [batch]) + Greedy(url, rest)
    ensures rest != [] ==> |Greedy(url, rest)| >= 1
  {
    var names := batch + rest;
    assert names[..|batch|] == batch && names[|batch|..] == rest;
    if rest != [] {
      assert names[..|batch| + 1] == batch + [rest[0]];
    }
    FitCountIs(url, names, |batch|);
    assert Greedy(url, names) == [batch] + Greedy(url, rest);
    assert done + ([batch] + Greedy(url, rest)) == (done + [batch]) + Greedy(url, rest);
  }

  lemma BatchOneMore(url: Url, batch: seq<string>, name: string)
    ensures BatchBytes(url, batch + [name]) == if batch == [] then Fixed(url) + FirstSep(url) + url.piece(name)
                                               else BatchBytes(url, batch) + 1 + url.piece(name)
  {
    assert (batch + [name])[..|batch|] == batch;
    assert Pieces(url, batch + [name]) == Pieces(url, batch) + url.piece(name);
  }

  /** The running size of a batch: what its request would measure, or the bare request while it is empty. */
  predicate SizeOf(url: Url, batch: seq<string>, size: nat) {
    if batch == [] then size == Fixed(url) else Fits(url, batch) && size == BatchBytes(url, batch)
  }

  /** The batches closed so far and the open one, followed by the greedy split of what is left, make the target. */
  ghost predicate Ahead(url: Url, target: seq<seq<string>>, done: seq<seq<string>>, batch: seq<string>, left: seq<string>) {
    target == done + Greedy(url, batch + left)
  }

  /** One name joins the open batch, which is closed first if the name does not fit in it. */
  method JoinName(url: Url, done: seq<seq<string>>, batch: seq<string>, size: nat, name: string,
                  ghost left: seq<string>, ghost target: seq<seq<string>>)
    returns (done': seq<seq<string>>, batch': seq<string>, size': nat)
    requires !TooLong(url, name) && SizeOf(url, batch, size) && |done| <= MOST_BATCHES
    requires Ahead(url, target, done, batch, [name] + left)
    ensures batch' != [] && SizeOf(url, batch', size') && Ahead(url, target, done', batch', left)
    ensures done' == done || (done' == done + [batch] && |target| > |done'|)
  {
    done', batch' := done, batch;
    BatchOneMore(url, batch, name);
    var joined := size + (if batch != [] then 1 else FirstSep(url)) + url.piece(name);
    if batch != [] && joined > MAX_URL_BYTES {
      GreedyCloses(url, done, batch, [name] + left);
      done', batch' := done + [batch], [];
      joined := Fixed(url) + FirstSep(url) + url.piece(name);
      BatchOneMore(url, [], name);
    }
    assert batch' + ([name] + left) == (batch' + [name]) + left;
    assert [] + ([name] + left) == [name] + left;
    batch', size' := batch' + [name], joined;
  }

  lemma LastBatch(url: Url, target: seq<seq<string>>, done: seq<seq<string>>, batch: seq<string>, size: nat)
    requires SizeOf(url, batch, size) && Ahead(url, target, done, batch, [])
    ensures target == if batch == [] then done else done + [batch]
  {
    if batch != [] {
      GreedyCloses(url, done, batch, []);
    }
  }

  lemma AheadAtStart(url: Url, before: seq<seq<string>>, names: seq<string>)
    ensures Ahead(url, before + Greedy(url, names), before, [], names[0..]) && SizeOf(url, [], Fixed(url))
  {
    assert [] + names[0..] == names;
  }

  /** One server's names appended to the batches so far, or None once the cap is known to be exceeded. */
  method BatchServer(url: Url, names: seq<string>, before: seq<seq<string>>) returns (batches: Option<seq<seq<string>>>)
    requires |before| <= MOST_BATCHES
    ensures batches.Some? ==> batches.value == before + Greedy(url, names) && |batches.value| <= MOST_BATCHES
    ensures batches.Some? ==> forall i :: 0 <= i < |names| ==> !TooLong(url, names[i])
    ensures batches.None? ==>
      (exists i :: 0 <= i < |names| && TooLong(url, names[i])) || |before| + |Greedy(url, names)| > MOST_BATCHES
  {
    ghost var target := before + Greedy(url, names);
    var done: seq<seq<string>>, batch: seq<string>, size := before, [], Fixed(url);
    AheadAtStart(url, before, names);
    for i := 0 to |names|
      invariant Ahead(url, target, done, batch, names[i..]) && SizeOf(url, batch, size)
      invariant |done| <= MOST_BATCHES
      invariant forall k :: 0 <= k < i ==> !TooLong(url, names[k])
    {
      if TooLong(url, names[i]) {
        return None;
      }
      var closed := |done|;
      assert names[i..] == [names[i]] + names[i + 1..];
      done, batch, size := JoinName(url, done, batch, size, names[i], names[i + 1..], target);
      if |done| > closed && |done| >= MOST_BATCHES {
        return None;
      }
    }
    assert names[|names|..] == [];
    LastBatch(url, target, done, batch, size);
    if batch != [] {
      done := done + [batch];
      if |done| > MOST_BATCHES {
        return None;
      }
    }
    batches := Some(done);
  }

  /** Every server's batches, or None: nothing to ask, a name too long to ask for, or too many batches. */
  method MetadataBatches(url: Url, shares: seq<seq<string>>) returns (batches: Option<seq<seq<string>>>)
    ensures batches.Some? <==> !AnyTooLong(url, shares) && 1 <= |AllGreedy(url, shares)| <= MOST_BATCHES
    ensures batches.Some? ==> batches.value == AllGreedy(url, shares)
  {
    var all: seq<seq<string>> := [];
    for s := 0 to |shares|
      invariant all == AllGreedy(url, shares[..s]) && |all| <= MOST_BATCHES
      invariant !AnyTooLong(url, shares[..s])
    {
      var grown := BatchServer(url, shares[s], all);
      assert shares[..s + 1][..s] == shares[..s];
      if grown.None? {
        AllGreedyGrows(url, shares, s + 1);
        return None;
      }
      all := grown.value;
    }
    assert shares[..|shares|] == shares;
    batches := if all == [] then None else Some(all);
  }

  /** What comes back is, request by request, within the cap. */
  lemma {:induction false} EveryBatchFits(url: Url, shares: seq<seq<string>>)
    requires !AnyTooLong(url, shares)
    ensures forall b :: 0 <= b < |AllGreedy(url, shares)| ==>
      AllGreedy(url, shares)[b] != [] && Fits(url, AllGreedy(url, shares)[b])
    ensures Flatten(AllGreedy(url, shares)) == Flatten(shares)
    decreases |shares|
  {
    if shares != [] {
      var n := |shares| - 1;
      EveryBatchFits(url, shares[..n]);
      GreedyIsSplit(url, shares[n]);
      FlattenConcat(AllGreedy(url, shares[..n]), Greedy(url, shares[n]));
      FlattenConcat(shares[..n], [shares[n]]);
      assert shares[..n] + [shares[n]] == shares;
      assert [shares[n]][1..] == [];
    }
  }

  lemma {:induction false} FlattenConcat(a: seq<seq<string>>, b: seq<seq<string>>)
    ensures Flatten(a + b) == Flatten(a) + Flatten(b)
  {
    if a == [] {
      assert a + b == b;
    } else {
      assert (a + b)[1..] == a[1..] + b;
      FlattenConcat(a[1..], b);
    }
  }

  // ----- the request itself -----

  /** Query parameters side by side. */
  function Joined(params: seq<string>): string {
    if params == [] then ""
    else if |params| == 1 then params[0]
    else Joined(params[..|params| - 1]) + "&" + params[|params| - 1]
  }

  /** One repeated parameter for each name. */
  function NameParams(encode: string -> string, names: seq<string>): (params: seq<string>)
    ensures |params| == |names|
  {
    seq(|names|, i requires 0 <= i < |names| => "segments=" + encode(names[i]))
  }

  /** The path and query of the request for these names, next to whatever the bulk request asks for. */
  function Request(path: string, bulk: string, encode: string -> string, names: seq<string>): string {
    path + Joined((if bulk == "" then [] else [bulk]) + NameParams(encode, names))
  }

  function UrlOf(path: string, bulk: string, encode: string -> string): Url {
    Url(|path|, |bulk|, name => |"segments=" + encode(name)|)
  }

  lemma JoinedOneMore(params: seq<string>, last: string)
    requires params != []
    ensures |Joined(params + [last])| == |Joined(params)| + 1 + |last|
  {
    assert (params + [last])[..|params|] == params;
  }

  /** What is measured is the very request: its path and query together. */
  lemma {:induction false} BytesAreRequest(path: string, bulk: string, encode: string -> string, names: seq<string>)
    requires names != []
    ensures BatchBytes(UrlOf(path, bulk, encode), names) == |Request(path, bulk, encode, names)|
    decreases |names|
  {
    var url, n := UrlOf(path, bulk, encode), |names| - 1;
    var lead := if bulk == "" then [] else [bulk];
    var before, last := NameParams(encode, names[..n]), "segments=" + encode(names[n]);
    assert lead + NameParams(encode, names) == (lead + before) + [last];
    if n == 0 {
      assert Pieces(url, names) == Pieces(url, names[..0]) + |last| && Pieces(url, names[..0]) == 0;
      assert lead + before == lead;
      if bulk != "" {
        JoinedOneMore(lead, last);
        assert Joined(lead) == bulk;
      } else {
        assert lead + [last] == [last] && Joined([last]) == last;
      }
    } else {
      BytesAreRequest(path, bulk, encode, names[..n]);
      JoinedOneMore(lead + before, last);
    }
  }

  /** So every request that is made is at most 6144 bytes long. */
  lemma EveryRequestFits(path: string, bulk: string, encode: string -> string, shares: seq<seq<string>>, b: nat)
    requires !AnyTooLong(UrlOf(path, bulk, encode), shares) && b < |AllGreedy(UrlOf(path, bulk, encode), shares)|
    ensures |Request(path, bulk, encode, AllGreedy(UrlOf(path, bulk, encode), shares)[b])| <= 6144
  {
    EveryBatchFits(UrlOf(path, bulk, encode), shares);
    BytesAreRequest(path, bulk, encode, AllGreedy(UrlOf(path, bulk, encode), shares)[b]);
  }

  /** A name is too long to ask for exactly when the request for it alone is. */
  lemma TooLongIffRequest(path: string, bulk: string, encode: string -> string, name: string)
    ensures TooLong(UrlOf(path, bulk, encode), name) <==> |Request(path, bulk, encode, [name])| > 6144
  {
    BytesAreRequest(path, bulk, encode, [name]);
    var url := UrlOf(path, bulk, encode);
    assert [name][..0] == [] && Pieces(url, [name][..0]) == 0;
    assert Pieces(url, [name]) == Pieces(url, [name][..0]) + url.piece(name);
  }
}
