/** Completing a one-server metadata answer from the servers that hold the rest
  * (adapters/pinot/metadata.py, and _complete_segment_metadata in adapters/pinot/engine.py). */
module MetadataFetch {
  import opened Prelude
  import opened Batching

  /** What a metadata answer says of one column. */
  datatype ColumnMeta = ColumnMeta(
    name: Option<string>,
    cardinality: Option<int>,
    singleValue: Option<bool>,
    entries: Option<int>,
    maxMultiValues: Option<int>,
    hasDictionary: Option<bool>,
    indexBytes: Option<nat>)               // all its index entries together, None without an index map

  /** One segment's entry in a metadata document; a null body prices nothing, and a consuming segment's
    * body carries no column list. */
  datatype Entry =
    | NullBody
    | Body(segmentName: Option<string>, totalDocs: Option<int>, columns: Option<seq<ColumnMeta>>, crc: Option<int>)

  type Document = map<string, Entry>

  /** A document has a body for a segment: one listed under its name, or one that states it. */
  ghost predicate HasBody(doc: Option<Document>, name: string) {
    exists key :: doc.Some? && key in doc.value && doc.value[key] != NullBody && (key == name || doc.value[key].segmentName == Some(name))
  }

  /** The names a document has a body for, as the code collects them. */
  function PresentNames(doc: Document): set<string> {
    (set key | key in doc && doc[key].Body?)
    + (set key | key in doc && doc[key].Body? && doc[key].segmentName.Some? :: doc[key].segmentName.value)
  }

  /** The sealed segments the size report names and the document lacks. */
  function MissingSealed(sizes: map<string, int>, doc: Option<Document>): set<string> {
    (set name | name in sizes && sizes[name] >= 0) - (if doc.Some? then PresentNames(doc.value) else {})
  }

  predicate IsComplete(sizes: map<string, int>, doc: Option<Document>) { MissingSealed(sizes, doc) == {} }

  lemma PresentIffBody(doc: Document, name: string)
    ensures name in PresentNames(doc) <==> HasBody(Some(doc), name)
  {
    if HasBody(Some(doc), name) {
      var key :| key in doc && doc[key] != NullBody && (key == name || doc[key].segmentName == Some(name));
      assert key in PresentNames(doc) && (doc[key].segmentName.Some? ==> doc[key].segmentName.value in PresentNames(doc));
    }
  }

  /** A segment is missing exactly when the size report names it with a size and no body speaks for it. */
  lemma MissingIffNoBody(sizes: map<string, int>, doc: Option<Document>, name: string)
    ensures name in MissingSealed(sizes, doc) <==> name in sizes && sizes[name] >= 0 && !HasBody(doc, name)
  {
    if doc.Some? {
      PresentIffBody(doc.value, name);
    }
  }

  /** Nothing is missing exactly when every sealed segment of the size report has a body. */
  lemma CompleteIffAllBodies(sizes: map<string, int>, doc: Option<Document>)
    ensures IsComplete(sizes, doc) <==> forall name :: name in sizes && sizes[name] >= 0 ==> HasBody(doc, name)
  {
    forall name ensures name in MissingSealed(sizes, doc) <==> name in sizes && sizes[name] >= 0 && !HasBody(doc, name) {
      MissingIffNoBody(sizes, doc, name);
    }
  }

  // ----- one holder per missing name -----

  datatype Holding = Holding(server: string, names: seq<string>)

  function Only(names: seq<string>, wanted: set<string>): seq<string> {
    if names == [] then []
    else
      var n := |names| - 1;
      Only(names[..n], wanted) + (if names[n] in wanted then [names[n]] else [])
  }

  lemma {:induction false} OnlyIs(names: seq<string>, wanted: set<string>, name: string)
    ensures name in Only(names, wanted) <==> name in names && name in wanted
  {
    if names != [] {
      OnlyIs(names[..|names| - 1], wanted, name);
    }
  }

  function ToSet(names: seq<string>): set<string> { set name | name in names }

  /** The names held by the first n servers. */
  function HeldBy(servers: seq<Holding>, n: nat): set<string>
    requires n <= |servers|
  {
    if n == 0 then {} else HeldBy(servers, n - 1) + ToSet(servers[n - 1].names)
  }

  /** What server s is asked for: the missing names it holds that no earlier server holds. */
  function Share(missing: set<string>, servers: seq<Holding>, s: nat): seq<string>
    requires s < |servers|
  {
    Only(servers[s].names, missing - HeldBy(servers, s))
  }

  function Shares(missing: set<string>, servers: seq<Holding>, n: nat): seq<seq<string>>
    requires n <= |servers|
  {
    if n == 0 then []
    else Shares(missing, servers, n - 1) + (if Share(missing, servers, n - 1) == [] then [] else [Share(missing, servers, n - 1)])
  }

  /** Each server's share, in response order, servers with nothing to ask left out. */
  method AssignMissing(missing: set<string>, servers: seq<Holding>) returns (shares: seq<seq<string>>)
    ensures shares == Shares(missing, servers, |servers|)
  {
    shares := [];
    var outstanding := missing;
    for s := 0 to |servers|
      invariant shares == Shares(missing, servers, s)
      invariant outstanding == missing - HeldBy(servers, s)
    {
      var taken := Only(servers[s].names, outstanding);
      forall name ensures name in taken <==> name in servers[s].names && name in outstanding {
        OnlyIs(servers[s].names, outstanding, name);
      }
      assert missing - HeldBy(servers, s + 1) == outstanding - ToSet(taken);
      if taken != [] {
        shares := shares + [taken];
      }
      outstanding := outstanding - ToSet(taken);
    }
  }

  lemma {:induction false} HeldByIs(servers: seq<Holding>, n: nat, name: string)
    requires n <= |servers|
    ensures name in HeldBy(servers, n) <==> exists t :: 0 <= t < n && name in servers[t].names
  {
    if n > 0 {
      HeldByIs(servers, n - 1, name);
    }
  }

  /** A name goes to its first holder and to nobody else. */
  lemma ShareOfFirstHolder(missing: set<string>, servers: seq<Holding>, name: string, s: nat)
    requires s < |servers|
    ensures name in Share(missing, servers, s) <==>
      name in missing && name in servers[s].names && forall t :: 0 <= t < s ==> name !in servers[t].names
  {
    HeldByIs(servers, s, name);
    OnlyIs(servers[s].names, missing - HeldBy(servers, s), name);
  }

  lemma FlattenShares(missing: set<string>, servers: seq<Holding>, n: nat)
    requires 0 < n <= |servers|
    ensures Flatten(Shares(missing, servers, n)) == Flatten(Shares(missing, servers, n - 1)) + Share(missing, servers, n - 1)
  {
    var before, share := Shares(missing, servers, n - 1), Share(missing, servers, n - 1);
    var tail := if share == [] then [] else [share];
    FlattenConcat(before, tail);
    assert [share][1..] == [] && Flatten([share]) == share + Flatten([]);
    assert Flatten(tail) == share;
  }

  lemma AskedStep(before: seq<string>, share: seq<string>, names: seq<string>, missing: set<string>, held: set<string>, name: string)
    requires name in before <==> name in missing && name in held
    requires name in share <==> name in names && name in missing - held
    ensures name in before + share <==> name in missing && name in held + ToSet(names)
  {
  }

  ghost predicate CoversHeld(missing: set<string>, servers: seq<Holding>, n: nat, name: string)
    requires n <= |servers|
  {
    name in Flatten(Shares(missing, servers, n)) <==> name in missing && name in HeldBy(servers, n)
  }

  lemma CoversOneMore(missing: set<string>, servers: seq<Holding>, n: nat, name: string)
    requires 0 < n <= |servers| && CoversHeld(missing, servers, n - 1, name)
    ensures CoversHeld(missing, servers, n, name)
  {
    FlattenShares(missing, servers, n);
    OnlyIs(servers[n - 1].names, missing - HeldBy(servers, n - 1), name);
    AskedStep(Flatten(Shares(missing, servers, n - 1)), Share(missing, servers, n - 1), servers[n - 1].names,
              missing, HeldBy(servers, n - 1), name);
  }

  /** Exactly the missing names somebody holds are asked for. */
  lemma SharesCoverHeld(missing: set<string>, servers: seq<Holding>, name: string)
    ensures name in Flatten(Shares(missing, servers, |servers|)) <==> name in missing && name in HeldBy(servers, |servers|)
  {
    assert CoversHeld(missing, servers, 0, name);
    for n := 0 to |servers|
      invariant CoversHeld(missing, servers, n, name)
    {
      CoversOneMore(missing, servers, n + 1, name);
    }
  }

  // ----- asking an arbitrary controller -----

  datatype Answer = Unreadable | Readable(doc: Document)

  /** A controller that may answer anything at all; what it was asked and what it answered are on record. */
  class Controller {
    ghost var servers: nat
    ghost var listing: Option<seq<Holding>>
    ghost var asks: seq<seq<string>>
    ghost var replies: seq<Answer>

    constructor ()
      ensures Unasked()
    {
      servers, listing, asks, replies := 0, None, [], [];
    }

    ghost predicate Unasked()
      reads this
    {
      servers == 0 && asks == [] && replies == []
    }

    ghost function Requests(): nat
      reads this
    {
      servers + |asks|
    }

    method GetServers() returns (holdings: Option<seq<Holding>>)
      modifies this
      ensures servers == old(servers) + 1 && asks == old(asks) && replies == old(replies) && listing == holdings
    {
      servers := servers + 1;
      holdings := *;
      listing := holdings;
    }

    method GetMetadata(names: seq<string>) returns (answer: Answer)
      modifies this
      ensures servers == old(servers) && listing == old(listing)
      ensures asks == old(asks) + [names] && replies == old(replies) + [answer]
    {
      answer := *;
      asks, replies := asks + [names], replies + [answer];
    }
  }

  function Lacking(names: seq<string>, doc: Document): seq<string> {
    if names == [] then []
    else
      var n := |names| - 1;
      Lacking(names[..n], doc) + (if names[n] in doc then [] else [names[n]])
  }

  lemma {:induction false} LackingIs(names: seq<string>, doc: Document)
    ensures forall name :: name in Lacking(names, doc) <==> name in names && name !in doc
  {
    if names != [] {
      LackingIs(names[..|names| - 1], doc);
    }
  }

  lemma {:induction false} LackingIsShorter(url: Url, names: seq<string>, doc: Document)
    ensures |Lacking(names, doc)| <= |names| && Pieces(url, Lacking(names, doc)) <= Pieces(url, names)
  {
    if names != [] {
      var n := |names| - 1;
      LackingIsShorter(url, names[..n], doc);
      if names[n] !in doc {
        assert (Lacking(names[..n], doc) + [names[n]])[..|Lacking(names[..n], doc)|] == Lacking(names[..n], doc);
      } else {
        assert Lacking(names, doc) == Lacking(names[..n], doc);
      }
    }
  }

  ghost predicate AllFit(url: Url, asks: seq<seq<string>>) {
    forall i :: 0 <= i < |asks| ==> asks[i] != [] && Fits(url, asks[i])
  }

  lemma AllFitOneMore(url: Url, asks: seq<seq<string>>, names: seq<string>)
    requires AllFit(url, asks) && names != [] && Fits(url, names)
    ensures AllFit(url, asks + [names])
  {
  }

  lemma GreedyFits(url: Url, shares: seq<seq<string>>)
    requires !AnyTooLong(url, shares)
    ensures AllFit(url, AllGreedy(url, shares))
  {
    EveryBatchFits(url, shares);
  }

  predicate Answered(answers: seq<Document>, name: string) { exists i :: 0 <= i < |answers| && name in answers[i] }

  lemma AnsweredByEither(a: seq<Document>, b: seq<Document>, name: string)
    ensures Answered(a + b, name) <==> Answered(a, name) || Answered(b, name)
  {
    assert forall i :: 0 <= i < |a| ==> (a + b)[i] == a[i];
    assert forall i :: 0 <= i < |b| ==> (a + b)[|a| + i] == b[i];
  }

  // ----- what a controller's replies amount to -----

  /** What one batch, or all of them, came to, what it took to ask, and whether the replies settled it. */
  datatype Told = Told(answers: Option<seq<Document>>, asked: seq<seq<string>>, settled: bool)

  /** Reply by reply: an unreadable one ends the batch, a short one has the rest asked for again. */
  function Tell(names: seq<string>, replies: seq<Answer>, tries: nat): (told: Told)
    ensures |told.asked| <= |replies|
    decreases tries
  {
    if tries == 0 || replies == [] then Told(None, [], tries == 0)
    else
      match replies[0]
      case Unreadable => Told(None, [names], true)
      case Readable(doc) =>
        if Lacking(names, doc) == [] then Told(Some([doc]), [names], true)
        else After([doc], [names], Tell(Lacking(names, doc), replies[1..], tries - 1))
  }

  /** Batch by batch: one that comes to nothing ends the whole fetch. */
  function TellAll(batches: seq<seq<string>>, replies: seq<Answer>): (told: Told)
    ensures |told.asked| <= |replies|
  {
    if batches == [] then Told(Some([]), [], true)
    else
      var first := Tell(batches[0], replies, 1 + RETRIES);
      if first.answers.None? then first
      else After(first.answers.value, first.asked, TellAll(batches[1..], replies[|first.asked|..]))
  }

  function After(got: seq<Document>, asked: seq<seq<string>>, rest: Told): Told {
    Told(if rest.answers.Some? then Some(got + rest.answers.value) else None, asked + rest.asked, rest.settled)
  }

  lemma AfterAfter(got: seq<Document>, more: seq<Document>, asked: seq<seq<string>>, further: seq<seq<string>>, rest: Told)
    ensures After(got, asked, After(more, further, rest)) == After(got + more, asked + further, rest)
  {
    assert asked + (further + rest.asked) == (asked + further) + rest.asked;
    assert rest.answers.Some? ==> got + (more + rest.answers.value) == (got + more) + rest.answers.value;
  }

  lemma AfterNothing(rest: Told)
    ensures After([], [], rest) == rest
  {
    assert [] + rest.asked == rest.asked;
    assert rest.answers.Some? ==> [] + rest.answers.value == rest.answers.value;
  }

  /** The first n replies are readable and between them hold every name. */
  ghost predicate Covering(names: seq<string>, replies: seq<Answer>, n: nat) {
    && n <= |replies|
    && (forall k :: 0 <= k < n ==> replies[k].Readable?)
    && forall name :: name in names ==> HeldBefore(name, replies, n)
  }

  ghost predicate HeldBefore(name: string, replies: seq<Answer>, n: nat)
    requires n <= |replies|
  {
    exists k :: 0 <= k < n && replies[k].Readable? && name in replies[k].doc
  }

  lemma HeldBeforeStep(name: string, replies: seq<Answer>, n: nat)
    requires 0 < n <= |replies|
    ensures HeldBefore(name, replies, n) <==> (replies[0].Readable? && name in replies[0].doc) || HeldBefore(name, replies[1..], n - 1)
  {
    if HeldBefore(name, replies, n) {
      var k :| 0 <= k < n && replies[k].Readable? && name in replies[k].doc;
      assert k > 0 ==> replies[1..][k - 1] == replies[k];
    }
    if HeldBefore(name, replies[1..], n - 1) {
      var k :| 0 <= k < n - 1 && replies[1..][k].Readable? && name in replies[1..][k].doc;
      assert replies[1..][k] == replies[k + 1];
    }
  }

  lemma CoveringStep(names: seq<string>, replies: seq<Answer>, n: nat)
    requires 0 < n <= |replies| && replies[0].Readable?
    ensures Covering(names, replies, n) <==> Covering(Lacking(names, replies[0].doc), replies[1..], n - 1)
  {
    LackingIs(names, replies[0].doc);
    forall name ensures HeldBefore(name, replies, n) <==> name in replies[0].doc || HeldBefore(name, replies[1..], n - 1) {
      HeldBeforeStep(name, replies, n);
    }
    assert forall k :: 0 <= k < n - 1 ==> replies[1..][k] == replies[k + 1];
    if Covering(Lacking(names, replies[0].doc), replies[1..], n - 1) {
      forall k | 0 <= k < n ensures replies[k].Readable? {
        assert k > 0 ==> replies[1..][k - 1].Readable?;
      }
    }
  }

  /** Within its tries, readable replies hold every name of a batch between them. */
  ghost predicate CoveredWithin(names: seq<string>, replies: seq<Answer>, tries: nat) {
    exists n :: 1 <= n <= tries && Covering(names, replies, n)
  }

  lemma CoveredByRest(names: seq<string>, replies: seq<Answer>, tries: nat)
    requires tries > 0 && replies != [] && replies[0].Readable? && Lacking(names, replies[0].doc) != []
    ensures CoveredWithin(names, replies, tries) <==> CoveredWithin(Lacking(names, replies[0].doc), replies[1..], tries - 1)
  {
    var left := Lacking(names, replies[0].doc);
    if CoveredWithin(names, replies, tries) {
      var n :| 1 <= n <= tries && Covering(names, replies, n);
      CoveringStep(names, replies, n);
      assert left[0] in left && HeldBefore(left[0], replies[1..], n - 1);
      assert Covering(left, replies[1..], n - 1);
    }
    if CoveredWithin(left, replies[1..], tries - 1) {
      var n :| 1 <= n <= tries - 1 && Covering(left, replies[1..], n);
      CoveringStep(names, replies, n + 1);
      assert Covering(names, replies, n + 1);
    }
  }

  lemma CoveredAtOnce(names: seq<string>, replies: seq<Answer>, tries: nat)
    requires tries > 0 && replies != [] && replies[0].Readable? && Lacking(names, replies[0].doc) == []
    ensures CoveredWithin(names, replies, tries)
  {
    CoveringStep(names, replies, 1);
    assert Covering(names, replies, 1);
  }

  /** A batch succeeds exactly when, within its tries, readable replies hold every name between them. */
  lemma {:induction false} BatchSucceedsIff(names: seq<string>, replies: seq<Answer>, tries: nat)
    ensures Tell(names, replies, tries).answers.Some? <==> CoveredWithin(names, replies, tries)
    decreases tries
  {
    if tries > 0 && replies != [] && replies[0].Readable? {
      if Lacking(names, replies[0].doc) == [] {
        CoveredAtOnce(names, replies, tries);
      } else {
        CoveredByRest(names, replies, tries);
        BatchSucceedsIff(Lacking(names, replies[0].doc), replies[1..], tries - 1);
      }
    }
  }

  lemma {:induction false} TellAnswers(names: seq<string>, replies: seq<Answer>, tries: nat, name: string)
    requires Tell(names, replies, tries).answers.Some? && name in names
    ensures Answered(Tell(names, replies, tries).answers.value, name)
    decreases tries
  {
    var doc := replies[0].doc;
    LackingIs(names, doc);
    if Lacking(names, doc) == [] {
      assert name in [doc][0];
    } else {
      var rest := Tell(Lacking(names, doc), replies[1..], tries - 1).answers.value;
      AnsweredByEither([doc], rest, name);
      if name in doc {
        assert name in [doc][0];
      } else {
        TellAnswers(Lacking(names, doc), replies[1..], tries - 1, name);
      }
    }
  }

  lemma {:induction false} TellAllAnswers(batches: seq<seq<string>>, replies: seq<Answer>, name: string)
    requires TellAll(batches, replies).answers.Some? && name in Flatten(batches)
    ensures Answered(TellAll(batches, replies).answers.value, name)
  {
    var first := Tell(batches[0], replies, 1 + RETRIES);
    var rest := TellAll(batches[1..], replies[|first.asked|..]);
    AnsweredByEither(first.answers.value, rest.answers.value, name);
    if name in batches[0] {
      TellAnswers(batches[0], replies, 1 + RETRIES, name);
    } else {
      TellAllAnswers(batches[1..], replies[|first.asked|..], name);
    }
  }

  /** A batch that succeeded did not look at later replies. */
  lemma {:induction false} TellIgnoresRest(names: seq<string>, replies: seq<Answer>, more: seq<Answer>, tries: nat)
    requires Tell(names, replies, tries).answers.Some?
    ensures Tell(names, replies + more, tries) == Tell(names, replies, tries)
    decreases tries
  {
    var doc := replies[0].doc;
    assert (replies + more)[0] == replies[0] && (replies + more)[1..] == replies[1..] + more;
    if Lacking(names, doc) != [] {
      TellIgnoresRest(Lacking(names, doc), replies[1..], more, tries - 1);
    }
  }

  /** Whatever comes next, these replies have left this much of the batch to ask for. */
  ghost predicate Leaves(names: seq<string>, replies: seq<Answer>, got: Told, outstanding: seq<string>, tries: nat) {
    && |replies| <= tries && got.answers.Some?
    && forall more: seq<Answer> :: LeavesAt(names, replies, got, outstanding, tries, more)
  }

  ghost predicate LeavesAt(names: seq<string>, replies: seq<Answer>, got: Told, outstanding: seq<string>, tries: nat, more: seq<Answer>)
    requires |replies| <= tries && got.answers.Some?
  {
    Tell(names, replies + more, tries) == After(got.answers.value, got.asked, Tell(outstanding, more, tries - |replies|))
  }

  function Adding(got: Told, names: seq<string>, doc: Document): Told
    requires got.answers.Some?
  {
    Told(Some(got.answers.value + [doc]), got.asked + [names], true)
  }

  lemma LeavesAll(names: seq<string>, tries: nat)
    ensures Leaves(names, [], Told(Some([]), [], true), names, tries)
  {
    forall more: seq<Answer> ensures LeavesAt(names, [], Told(Some([]), [], true), names, tries, more) {
      assert [] + more == more;
      AfterNothing(Tell(names, more, tries));
    }
  }

  lemma TellShort(names: seq<string>, doc: Document, more: seq<Answer>, tries: nat)
    requires tries > 0 && Lacking(names, doc) != []
    ensures Tell(names, [Readable(doc)] + more, tries) == After([doc], [names], Tell(Lacking(names, doc), more, tries - 1))
  {
    assert ([Readable(doc)] + more)[1..] == more;
  }

  lemma LeavesLess(names: seq<string>, replies: seq<Answer>, got: Told, outstanding: seq<string>, tries: nat, doc: Document)
    requires Leaves(names, replies, got, outstanding, tries) && |replies| < tries && Lacking(outstanding, doc) != []
    ensures Leaves(names, replies + [Readable(doc)], Adding(got, outstanding, doc), Lacking(outstanding, doc), tries)
  {
    forall more: seq<Answer> ensures LeavesAt(names, replies + [Readable(doc)], Adding(got, outstanding, doc), Lacking(outstanding, doc), tries, more) {
      assert (replies + [Readable(doc)]) + more == replies + ([Readable(doc)] + more);
      assert LeavesAt(names, replies, got, outstanding, tries, [Readable(doc)] + more);
      TellShort(outstanding, doc, more, tries - |replies|);
      AfterAfter(got.answers.value, [doc], got.asked, [outstanding], Tell(Lacking(outstanding, doc), more, tries - |replies| - 1));
    }
  }

  /** The last reply settles the batch: it was unreadable, or left nothing to ask for. */
  lemma LeavesNothing(names: seq<string>, replies: seq<Answer>, got: Told, outstanding: seq<string>, tries: nat, last: Answer)
    requires Leaves(names, replies, got, outstanding, tries) && |replies| < tries
    requires last.Readable? ==> Lacking(outstanding, last.doc) == []
    ensures Tell(names, replies + [last], tries)
      == Told(if last.Readable? then Some(got.answers.value + [last.doc]) else None, got.asked + [outstanding], true)
  {
    assert LeavesAt(names, replies, got, outstanding, tries, [last]);
  }

  /** Out of tries with names still outstanding. */
  lemma LeavesSome(names: seq<string>, replies: seq<Answer>, got: Told, outstanding: seq<string>)
    requires Leaves(names, replies, got, outstanding, |replies|)
    ensures Tell(names, replies, |replies|) == Told(None, got.asked, true)
  {
    assert LeavesAt(names, replies, got, outstanding, |replies|, []);
    assert replies + [] == replies && got.asked + [] == got.asked;
  }

  /** One batch, asked again for whatever a short answer left out, up to RETRIES more times: the requests made
    * and the outcome are what the replies amount to. */
  method AskUntilWhole(controller: Controller, url: Url, names: seq<string>)
    returns (answers: Option<seq<Document>>, ghost asked: seq<seq<string>>, ghost replies: seq<Answer>)
    requires names != [] && Fits(url, names) && AllFit(url, controller.asks)
    modifies controller
    ensures controller.servers == old(controller.servers) && controller.listing == old(controller.listing)
    ensures controller.asks == old(controller.asks) + asked && controller.replies == old(controller.replies) + replies
    ensures |replies| == |asked| <= 3 && AllFit(url, controller.asks)
    ensures Tell(names, replies, 1 + RETRIES) == Told(answers, asked, true)
  {
    var got: seq<Document>, outstanding := [], names;
    asked, replies := [], [];
    LeavesAll(names, 1 + RETRIES);
    for round := 0 to 1 + RETRIES
      invariant controller.servers == old(controller.servers) && controller.listing == old(controller.listing)
      invariant controller.asks == old(controller.asks) + asked && controller.replies == old(controller.replies) + replies
      invariant |asked| == |replies| == round && AllFit(url, controller.asks)
      invariant outstanding != [] && Fits(url, outstanding)
      invariant Leaves(names, replies, Told(Some(got), asked, true), outstanding, 1 + RETRIES)
    {
      ghost var told := Told(Some(got), asked, true);
      AllFitOneMore(url, controller.asks, outstanding);
      var answer := controller.GetMetadata(outstanding);
      ghost var before := replies;
      asked, replies := asked + [outstanding], replies + [answer];
      if answer.Unreadable? {
        LeavesNothing(names, before, told, outstanding, 1 + RETRIES, answer);
        return None, asked, replies;
      }
      LackingIsShorter(url, outstanding, answer.doc);
      if Lacking(outstanding, answer.doc) == [] {
        LeavesNothing(names, before, told, outstanding, 1 + RETRIES, answer);
        return Some(got + [answer.doc]), asked, replies;
      }
      LeavesLess(names, before, told, outstanding, 1 + RETRIES, answer.doc);
      got, outstanding := got + [answer.doc], Lacking(outstanding, answer.doc);
    }
    LeavesSome(names, replies, Told(Some(got), asked, true), outstanding);
    answers := None;
  }

  /** Whatever comes next, these replies have answered the first n batches. */
  ghost predicate AnswersFirst(batches: seq<seq<string>>, n: nat, replies: seq<Answer>, got: Told)
    requires n <= |batches|
  {
    got.answers.Some? && forall more: seq<Answer> :: AnswersFirstAt(batches, n, replies, got, more)
  }

  ghost predicate AnswersFirstAt(batches: seq<seq<string>>, n: nat, replies: seq<Answer>, got: Told, more: seq<Answer>)
    requires n <= |batches| && got.answers.Some?
  {
    TellAll(batches, replies + more) == After(got.answers.value, got.asked, TellAll(batches[n..], more))
  }

  lemma AnswersNone(batches: seq<seq<string>>)
    ensures AnswersFirst(batches, 0, [], Told(Some([]), [], true))
  {
    forall more: seq<Answer> ensures AnswersFirstAt(batches, 0, [], Told(Some([]), [], true), more) {
      assert [] + more == more && batches[0..] == batches;
      AfterNothing(TellAll(batches, more));
    }
  }

  /** One batch after another. */
  function Joining(got: Told, next: Told): Told
    requires got.answers.Some? && next.answers.Some?
  {
    Told(Some(got.answers.value + next.answers.value), got.asked + next.asked, true)
  }

  lemma AnswersOneMore(batches: seq<seq<string>>, n: nat, replies: seq<Answer>, got: Told, latest: seq<Answer>)
    requires n < |batches| && AnswersFirst(batches, n, replies, got)
    requires Tell(batches[n], latest, 1 + RETRIES).answers.Some? && |Tell(batches[n], latest, 1 + RETRIES).asked| == |latest|
    ensures AnswersFirst(batches, n + 1, replies + latest, Joining(got, Tell(batches[n], latest, 1 + RETRIES)))
  {
    var next := Tell(batches[n], latest, 1 + RETRIES);
    var m, both, joined := n + 1, replies + latest, Joining(got, next);
    forall more: seq<Answer> ensures AnswersFirstAt(batches, m, both, joined, more) {
      assert (replies + latest) + more == replies + (latest + more);
      assert (latest + more)[|latest|..] == more && batches[n..][0] == batches[n] && batches[n..][1..] == batches[n + 1..];
      assert AnswersFirstAt(batches, n, replies, got, latest + more);
      TellIgnoresRest(batches[n], latest, more, 1 + RETRIES);
      AfterAfter(got.answers.value, next.answers.value, got.asked, next.asked, TellAll(batches[n + 1..], more));
    }
  }

  lemma StopsAt(batches: seq<seq<string>>, n: nat, replies: seq<Answer>, got: Told, latest: seq<Answer>)
    requires n < |batches| && AnswersFirst(batches, n, replies, got)
    requires Tell(batches[n], latest, 1 + RETRIES).answers.None?
    ensures TellAll(batches, replies + latest)
      == Told(None, got.asked + Tell(batches[n], latest, 1 + RETRIES).asked, Tell(batches[n], latest, 1 + RETRIES).settled)
  {
    assert batches[n..][0] == batches[n];
    assert AnswersFirstAt(batches, n, replies, got, latest);
  }

  lemma AnswersEvery(batches: seq<seq<string>>, replies: seq<Answer>, got: Told)
    requires AnswersFirst(batches, |batches|, replies, got)
    ensures TellAll(batches, replies) == Told(got.answers, got.asked, true)
  {
    assert AnswersFirstAt(batches, |batches|, replies, got, []);
    assert replies + [] == replies && got.asked + [] == got.asked && got.answers.value + [] == got.answers.value;
  }

  /** Every batch in turn; one that comes to nothing ends the whole fetch. */
  method AskAll(controller: Controller, url: Url, batches: seq<seq<string>>) returns (answers: Option<seq<Document>>)
    requires AllFit(url, batches) && controller.asks == [] && controller.replies == []
    modifies controller
    ensures controller.servers == old(controller.servers) && controller.listing == old(controller.listing)
    ensures |controller.asks| <= |batches| * (1 + RETRIES) && AllFit(url, controller.asks)
    ensures TellAll(batches, controller.replies) == Told(answers, controller.asks, true)
  {
    var got: seq<Document> := [];
    AnswersNone(batches);
    for i := 0 to |batches|
      invariant controller.servers == old(controller.servers) && controller.listing == old(controller.listing)
      invariant |controller.asks| <= i * (1 + RETRIES) && AllFit(url, controller.asks)
      invariant AnswersFirst(batches, i, controller.replies, Told(Some(got), controller.asks, true))
    {
      ghost var told, before := Told(Some(got), controller.asks, true), controller.replies;
      var whole; ghost var asked, replies;
      whole, asked, replies := AskUntilWhole(controller, url, batches[i]);
      if whole.None? {
        StopsAt(batches, i, before, told, replies);
        return None;
      }
      AnswersOneMore(batches, i, before, told, replies);
      got := got + whole.value;
    }
    AnswersEvery(batches, controller.replies, Told(Some(got), controller.asks, true));
    answers := Some(got);
  }

  function Union(answers: seq<Document>): Document {
    if answers == [] then map[] else Union(answers[..|answers| - 1]) + answers[|answers| - 1]
  }

  /** The per-server answers in order, then the bulk answer, which wins where both spoke. */
  function Merged(bulk: Option<Document>, answers: seq<Document>): Document {
    Union(answers) + (if bulk.Some? then bulk.value else map[])
  }

  lemma {:induction false} UnionHas(answers: seq<Document>, name: string)
    requires Answered(answers, name)
    ensures name in Union(answers)
  {
    var n := |answers| - 1;
    if name !in answers[n] {
      var i :| 0 <= i < |answers| && name in answers[i];
      assert answers[..n][i] == answers[i];
      UnionHas(answers[..n], name);
    }
  }

  /** The last answer that speaks under this key says this. */
  ghost predicate SaysLast(answers: seq<Document>, key: string, entry: Entry) {
    exists i :: 0 <= i < |answers| && key in answers[i] && answers[i][key] == entry && forall j :: i < j < |answers| ==> key !in answers[j]
  }

  /** What a completed document says under a key: what the bulk answer says there, else the last answer to. */
  ghost predicate Speaks(bulk: Option<Document>, answers: seq<Document>, key: string, entry: Entry) {
    if bulk.Some? && key in bulk.value then bulk.value[key] == entry else SaysLast(answers, key, entry)
  }

  lemma {:induction false} UnionSaysLast(answers: seq<Document>, key: string, entry: Entry)
    ensures key in Union(answers) && Union(answers)[key] == entry <==> SaysLast(answers, key, entry)
  {
    if answers != [] {
      var n := |answers| - 1;
      UnionSaysLast(answers[..n], key, entry);
      if key in answers[n] {
        assert SaysLast(answers, key, entry) ==> answers[n][key] == entry;
        assert answers[n][key] == entry ==> SaysLast(answers, key, entry);
      } else {
        if i :| 0 <= i < |answers| && key in answers[i] && answers[i][key] == entry && forall j :: i < j < |answers| ==> key !in answers[j] {
          assert answers[..n][i] == answers[i];
        }
        if i :| 0 <= i < n && key in answers[..n][i] && answers[..n][i][key] == entry && forall j :: i < j < n ==> key !in answers[..n][j] {
          assert forall j :: i < j < |answers| ==> key !in answers[j] by {
            assert forall j :: i < j < n ==> answers[..n][j] == answers[j];
          }
        }
      }
    }
  }

  /** A completed document has a body for a name exactly when some key that the bulk answer or, failing it, the
    * last fetched answer speaks under holds one. */
  lemma BodyAfterIff(bulk: Option<Document>, answers: seq<Document>, name: string)
    ensures HasBody(Some(Merged(bulk, answers)), name) <==>
      exists key, entry :: Speaks(bulk, answers, key, entry) && entry != NullBody && (key == name || entry.segmentName == Some(name))
  {
    var doc := Merged(bulk, answers);
    forall key, entry ensures key in doc && doc[key] == entry <==> Speaks(bulk, answers, key, entry) {
      UnionSaysLast(answers, key, entry);
    }
    if HasBody(Some(doc), name) {
      var key :| key in doc && doc[key] != NullBody && (key == name || doc[key].segmentName == Some(name));
      assert Speaks(bulk, answers, key, doc[key]);
    }
  }

  /** A body fetched under its name stands, where the bulk answer says nothing under that name. */
  lemma FetchedBodyStands(bulk: Option<Document>, answers: seq<Document>, name: string, entry: Entry)
    requires SaysLast(answers, name, entry) && entry != NullBody && (bulk.None? || name !in bulk.value)
    ensures HasBody(Some(Merged(bulk, answers)), name)
  {
    BodyAfterIff(bulk, answers, name);
    assert Speaks(bulk, answers, name, entry);
  }

  /** A null entry of the bulk answer outlives any fetch: the body fetched under that name is dropped again. */
  lemma NullInBulkStays(bulk: Document, answers: seq<Document>, name: string)
    requires name in bulk && bulk[name] == NullBody
    requires forall key, entry :: key != name && Speaks(Some(bulk), answers, key, entry) && entry != NullBody ==> entry.segmentName != Some(name)
    ensures !HasBody(Some(Merged(Some(bulk), answers)), name)
  {
    BodyAfterIff(Some(bulk), answers, name);
  }

  /** Merging never makes a segment missing that the bulk answer had. */
  lemma MergeOnlyAdds(sizes: map<string, int>, bulk: Option<Document>, answers: seq<Document>)
    ensures MissingSealed(sizes, Some(Merged(bulk, answers))) <= MissingSealed(sizes, bulk)
  {
    var doc := Merged(bulk, answers);
    forall name | HasBody(bulk, name) ensures HasBody(Some(doc), name) {
      var key :| key in bulk.value && bulk.value[key] != NullBody && (key == name || bulk.value[key].segmentName == Some(name));
      assert key in doc && doc[key] == bulk.value[key];
    }
    forall name | name in MissingSealed(sizes, Some(doc)) ensures name in MissingSealed(sizes, bulk) {
      MissingIffNoBody(sizes, Some(doc), name);
      MissingIffNoBody(sizes, bulk, name);
    }
  }

  /** Every missing name some server holds is in the document. */
  ghost predicate HoldsAsked(doc: Document, missing: set<string>, servers: seq<Holding>) {
    forall name :: name in missing && name in HeldBy(servers, |servers|) ==> name in doc
  }

  ghost predicate Keeps(doc: Document, bulk: Option<Document>) {
    bulk.Some? ==> forall key :: key in bulk.value ==> key in doc && doc[key] == bulk.value[key]
  }

  /** What a controller's listing and replies amount to: nothing, asking nothing, when there is no listing,
    * nobody holds what is missing, a name is too long to ask for or the batches are too many. */
  ghost function Fetched(url: Url, missing: set<string>, listing: Option<seq<Holding>>, replies: seq<Answer>): Told {
    if listing.None? then Told(None, [], true)
    else
      var shares := Shares(missing, listing.value, |listing.value|);
      if AnyTooLong(url, shares) || !(1 <= |AllGreedy(url, shares)| <= MOST_BATCHES) then Told(None, [], true)
      else TellAll(AllGreedy(url, shares), replies)
  }

  /** What is fetched holds every missing name some server holds. */
  lemma FetchedHoldsAsked(url: Url, missing: set<string>, listing: Option<seq<Holding>>, replies: seq<Answer>, name: string)
    requires Fetched(url, missing, listing, replies).answers.Some? && name in missing && name in HeldBy(listing.value, |listing.value|)
    ensures Answered(Fetched(url, missing, listing, replies).answers.value, name)
  {
    var shares := Shares(missing, listing.value, |listing.value|);
    SharesCoverHeld(missing, listing.value, name);
    EveryBatchFits(url, shares);
    TellAllAnswers(AllGreedy(url, shares), replies, name);
  }

  lemma {:induction false} TellAsksOf(names: seq<string>, replies: seq<Answer>, tries: nat, i: nat, name: string)
    requires i < |Tell(names, replies, tries).asked| && name in Tell(names, replies, tries).asked[i]
    ensures name in names
    decreases tries
  {
    if i > 0 {
      var doc := replies[0].doc;
      LackingIs(names, doc);
      TellAsksOf(Lacking(names, doc), replies[1..], tries - 1, i - 1, name);
    }
  }

  lemma {:induction false} TellAllAsksOf(batches: seq<seq<string>>, replies: seq<Answer>, i: nat, name: string)
    requires i < |TellAll(batches, replies).asked| && name in TellAll(batches, replies).asked[i]
    ensures name in Flatten(batches)
    decreases |batches|
  {
    var first := Tell(batches[0], replies, 1 + RETRIES);
    if i < |first.asked| {
      TellAsksOf(batches[0], replies, 1 + RETRIES, i, name);
    } else {
      TellAllAsksOf(batches[1..], replies[|first.asked|..], i - |first.asked|, name);
    }
  }

  /** Only missing names are asked for. */
  lemma FetchAsksMissing(url: Url, missing: set<string>, listing: Option<seq<Holding>>, replies: seq<Answer>, i: nat, name: string)
    requires i < |Fetched(url, missing, listing, replies).asked| && name in Fetched(url, missing, listing, replies).asked[i]
    ensures name in missing
  {
    var shares := Shares(missing, listing.value, |listing.value|);
    TellAllAsksOf(AllGreedy(url, shares), replies, i, name);
    EveryBatchFits(url, shares);
    SharesCoverHeld(missing, listing.value, name);
  }

  lemma MergedHoldsAsked(url: Url, missing: set<string>, bulk: Option<Document>, listing: Option<seq<Holding>>, replies: seq<Answer>)
    requires Fetched(url, missing, listing, replies).answers.Some?
    ensures listing.Some? && HoldsAsked(Merged(bulk, Fetched(url, missing, listing, replies).answers.value), missing, listing.value)
  {
    var answers := Fetched(url, missing, listing, replies).answers.value;
    forall name | name in missing && name in HeldBy(listing.value, |listing.value|) ensures name in Merged(bulk, answers) {
      FetchedHoldsAsked(url, missing, listing, replies, name);
      UnionHas(answers, name);
    }
  }

  /** Every body an answer gave last under its segment's name is in the document, unless the bulk answer says
    * something else under that name. */
  ghost predicate FetchedBodiesStand(doc: Option<Document>, bulk: Option<Document>, answers: seq<Document>) {
    forall name, entry :: (bulk.None? || name !in bulk.value) && SaysLast(answers, name, entry) && entry != NullBody ==> HasBody(doc, name)
  }

  lemma MergedBodiesStand(bulk: Option<Document>, answers: seq<Document>)
    ensures FetchedBodiesStand(Some(Merged(bulk, answers)), bulk, answers)
  {
    forall name, entry | (bulk.None? || name !in bulk.value) && SaysLast(answers, name, entry) && entry != NullBody
      ensures HasBody(Some(Merged(bulk, answers)), name)
    {
      FetchedBodyStands(bulk, answers, name, entry);
    }
  }

  /** What the document is once the fetch has come to something or nothing. */
  ghost predicate Completed(doc: Option<Document>, bulk: Option<Document>, answers: Option<seq<Document>>) {
    doc == if answers.Some? then Some(Merged(bulk, answers.value)) else bulk
  }

  /** A name is asked for only if it is sealed and the bulk answer has no body for it. */
  ghost predicate OnlyBodilessAsked(asks: seq<seq<string>>, sizes: map<string, int>, bulk: Option<Document>) {
    forall i, name :: 0 <= i < |asks| && name in asks[i] ==> name in sizes && sizes[name] >= 0 && !HasBody(bulk, name)
  }

  lemma FetchAsksBodiless(url: Url, sizes: map<string, int>, bulk: Option<Document>, listing: Option<seq<Holding>>, replies: seq<Answer>)
    ensures OnlyBodilessAsked(Fetched(url, MissingSealed(sizes, bulk), listing, replies).asked, sizes, bulk)
  {
    var missing := MissingSealed(sizes, bulk);
    var asks := Fetched(url, missing, listing, replies).asked;
    forall i, name | 0 <= i < |asks| && name in asks[i] ensures name in sizes && sizes[name] >= 0 && !HasBody(bulk, name) {
      FetchAsksMissing(url, missing, listing, replies, i, name);
      MissingIffNoBody(sizes, bulk, name);
    }
  }

  /** Whatever the controller answers: at most MAX_REQUESTS requests, none over the URL cap; nothing is asked
    * for a complete document; otherwise the holders are asked for once, the requests made and their outcome are
    * what the replies amount to, and the bulk answer stands when that is nothing. What is merged in keeps the
    * bulk answer's own entries and holds every name asked for. */
  method CompleteSegmentMetadata(controller: Controller, url: Url, bulk: Option<Document>, sizes: map<string, int>)
    returns (doc: Option<Document>, ghost answers: Option<seq<Document>>)
    requires controller.Unasked()
    modifies controller
    ensures controller.Requests() <= MAX_REQUESTS && AllFit(url, controller.asks)
    ensures IsComplete(sizes, bulk) ==> controller.Requests() == 0 && answers == None
    ensures !IsComplete(sizes, bulk) ==> controller.servers == 1
    ensures !IsComplete(sizes, bulk) ==>
      Fetched(url, MissingSealed(sizes, bulk), controller.listing, controller.replies) == Told(answers, controller.asks, true)
    ensures Completed(doc, bulk, answers)
    ensures answers.Some? ==> controller.listing.Some? && Keeps(doc.value, bulk)
    ensures answers.Some? ==> HoldsAsked(doc.value, MissingSealed(sizes, bulk), controller.listing.value)
    ensures MissingSealed(sizes, doc) <= MissingSealed(sizes, bulk)
    ensures answers.Some? ==> FetchedBodiesStand(doc, bulk, answers.value)
    ensures controller.Requests() == 0 <==> forall name :: name in sizes && sizes[name] >= 0 ==> HasBody(bulk, name)
    ensures OnlyBodilessAsked(controller.asks, sizes, bulk)
  {
    doc, answers := bulk, None;
    var missing := MissingSealed(sizes, bulk);
    CompleteIffAllBodies(sizes, bulk);
    if missing == {} {
      return;
    }
    var fetched := FetchMissing(controller, url, missing);
    answers := fetched;
    FetchAsksBodiless(url, sizes, bulk, controller.listing, controller.replies);
    if fetched.None? {
      return;
    }
    MergeOnlyAdds(sizes, bulk, fetched.value);
    MergedHoldsAsked(url, missing, bulk, controller.listing, controller.replies);
    MergedBodiesStand(bulk, fetched.value);
    doc := Some(Merged(bulk, fetched.value));
  }

  /** The per-server answers for the missing names, within one request for the holders and the batch cap. */
  method FetchMissing(controller: Controller, url: Url, missing: set<string>) returns (answers: Option<seq<Document>>)
    requires controller.Unasked()
    modifies controller
    ensures controller.servers == 1 && controller.Requests() <= 64 && AllFit(url, controller.asks)
    ensures Fetched(url, missing, controller.listing, controller.replies) == Told(answers, controller.asks, true)
  {
    var listed := controller.GetServers();
    if listed.None? {
      return None;
    }
    var shares := AssignMissing(missing, listed.value);
    var batches := MetadataBatches(url, shares);
    if batches.None? {
      return None;
    }
    GreedyFits(url, shares);
    answers := AskAll(controller, url, batches.value);
  }
}
