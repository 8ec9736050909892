/**
 What UNIP-01 resolution does and does not depend on: two runs of the rule of `Binding`, on
 lists that differ in timestamps, in order, or in events that should not matter.
 */
module Resolution {
  import opened Basics
  import opened Events
  import opened TextCodecs
  import opened Binding

  ghost function OwnerEvent(events: seq<Event>, counts: Inclusion): (r: Option<Event>)
    ensures r.Some? <==> Owner(events, counts).Some?
  {
    match Owner(events, counts)
    case Some(i) => Some(events[i])
    case None => None
  }

  ghost function OwnerPubkey(events: seq<Event>, counts: Inclusion): Option<Text> {
    match OwnerEvent(events, counts)
    case Some(e) => Some(e.pubkey)
    case None => None
  }

  // ---- Timestamps never choose between authors ----

  /** Same authors, markers and inclusion; timestamps ordered alike within each author only. */
  ghost predicate AlikeWithinAuthors(a: seq<Event>, b: seq<Event>, counts: Inclusion) {
    && |a| == |b|
    && (forall i :: 0 <= i < |a| ==>
          a[i].pubkey == b[i].pubkey && Marked(a[i]) == Marked(b[i]) && counts(a[i]) == counts(b[i]))
    && (forall i, j :: 0 <= i < |a| && 0 <= j < |a| && counts(a[i]) && counts(a[j]) && a[i].pubkey == a[j].pubkey ==>
          (a[i].createdAt < a[j].createdAt <==> b[i].createdAt < b[j].createdAt))
  }

  lemma AlikeCurrent(a: seq<Event>, b: seq<Event>, counts: Inclusion, i: nat)
    requires AlikeWithinAuthors(a, b, counts) && Current(a, counts, i)
    ensures Current(b, counts, i)
  {
  }

  lemma AlikeSymmetric(a: seq<Event>, b: seq<Event>, counts: Inclusion)
    requires AlikeWithinAuthors(a, b, counts)
    ensures AlikeWithinAuthors(b, a, counts)
  {
  }

  lemma AlikeOwns(a: seq<Event>, b: seq<Event>, counts: Inclusion, i: nat)
    requires AlikeWithinAuthors(a, b, counts) && Owns(a, counts, i)
    ensures Owns(b, counts, i)
  {
    AlikeSymmetric(a, b, counts);
    AlikeCurrent(a, b, counts, i);
    forall j: nat | Current(b, counts, j)
      ensures Current(a, counts, j)
    {
      AlikeCurrent(b, a, counts, j);
    }
  }

  /** However the clocks of different authors are shifted against each other, the owner stays. */
  lemma TimestampsNeverChoose(a: seq<Event>, b: seq<Event>, counts: Inclusion)
    requires AlikeWithinAuthors(a, b, counts)
    ensures Owner(a, counts) == Owner(b, counts)
  {
    AlikeSymmetric(a, b, counts);
    if i: nat :| Owns(a, counts, i) {
      AlikeOwns(a, b, counts, i);
      OwnerUnique(b, counts, i);
    }
    if i: nat :| Owns(b, counts, i) {
      AlikeOwns(b, a, counts, i);
      OwnerUnique(a, counts, i);
    }
  }

  // ---- The current binding of one author, as a running maximum ----

  function CurrentOf(events: seq<Event>, counts: Inclusion, author: Text): Option<Event> {
    if events == [] then None
    else
      var n := |events| - 1;
      var before := CurrentOf(events[..n], counts, author);
      if counts(events[n]) && events[n].pubkey == author
         && (before.None? || events[n].createdAt > before.value.createdAt)
      then Some(events[n])
      else before
  }

  /** The index of the running maximum. */
  lemma {:induction false} CurrentOfIndex(events: seq<Event>, counts: Inclusion, author: Text) returns (i: nat)
    requires CurrentOf(events, counts, author).Some?
    ensures Current(events, counts, i) && events[i].pubkey == author
    ensures events[i] == CurrentOf(events, counts, author).value
  {
    var n := |events| - 1;
    var before := CurrentOf(events[..n], counts, author);
    if before.None? {
      i := n;
      forall j | 0 <= j < n && counts(events[j])
        ensures events[j].pubkey != author
      {
        CurrentOfCovers(events[..n], counts, j);
      }
    } else {
      i := CurrentOfIndex(events[..n], counts, author);
      if CurrentOf(events, counts, author) != before {
        i := n;
        forall j | 0 <= j < n && counts(events[j]) && events[j].pubkey == author
          ensures events[j].createdAt < events[n].createdAt
        {
          CurrentOfCovers(events[..n], counts, j);
        }
      } else {
        assert counts(events[n]) && events[n].pubkey == author ==> events[n].createdAt <= events[i].createdAt;
      }
    }
  }

  /** Every counted event is at most as late as its author's current one. */
  lemma {:induction false} CurrentOfCovers(events: seq<Event>, counts: Inclusion, j: nat)
    requires j < |events| && counts(events[j])
    ensures CurrentOf(events, counts, events[j].pubkey).Some?
    ensures events[j].createdAt <= CurrentOf(events, counts, events[j].pubkey).value.createdAt
  {
    var n := |events| - 1;
    if j < n {
      CurrentOfCovers(events[..n], counts, j);
    }
  }

  lemma CurrentIsCurrentOf(events: seq<Event>, counts: Inclusion, i: nat)
    requires Current(events, counts, i)
    ensures CurrentOf(events, counts, events[i].pubkey) == Some(events[i])
  {
    CurrentOfCovers(events, counts, i);
    var k := CurrentOfIndex(events, counts, events[i].pubkey);
    assert k == i;
  }

  /** Resolution depends on the list only through each author's current binding. */
  lemma SameCurrentsSameOwner(a: seq<Event>, b: seq<Event>, counts: Inclusion)
    requires forall author :: CurrentOf(a, counts, author) == CurrentOf(b, counts, author)
    ensures OwnerEvent(a, counts) == OwnerEvent(b, counts)
  {
    if i: nat :| Owns(a, counts, i) {
      CarriesOwner(a, b, counts, i);
    }
    if i: nat :| Owns(b, counts, i) {
      CarriesOwner(b, a, counts, i);
    }
  }

  lemma CarriesOwner(a: seq<Event>, b: seq<Event>, counts: Inclusion, i: nat)
    requires forall author :: CurrentOf(a, counts, author) == CurrentOf(b, counts, author)
    requires Owns(a, counts, i)
    ensures OwnerEvent(a, counts) == OwnerEvent(b, counts) == Some(a[i])
  {
    OwnerUnique(a, counts, i);
    CurrentIsCurrentOf(a, counts, i);
    var k := CurrentOfIndex(b, counts, a[i].pubkey);
    forall j: nat | Current(b, counts, j) && (Marked(a[i]) ==> Marked(b[j]))
      ensures j == k
    {
      CurrentIsCurrentOf(b, counts, j);
      var m := CurrentOfIndex(a, counts, b[j].pubkey);
      assert m == i;
    }
    assert Owns(b, counts, k);
    OwnerUnique(b, counts, k);
  }

  // ---- Events that do not count do not matter ----

  function Counted(events: seq<Event>, counts: Inclusion): seq<Event> {
    if events == [] then []
    else
      var n := |events| - 1;
      Counted(events[..n], counts) + if counts(events[n]) then [events[n]] else []
  }

  lemma SnocSameCurrent(a: seq<Event>, b: seq<Event>, e: Event, counts: Inclusion, author: Text)
    requires CurrentOf(a, counts, author) == CurrentOf(b, counts, author)
    ensures CurrentOf(a + [e], counts, author) == CurrentOf(b + [e], counts, author)
  {
  }

  lemma {:induction false} CountedSameCurrent(events: seq<Event>, counts: Inclusion, author: Text)
    ensures CurrentOf(Counted(events, counts), counts, author) == CurrentOf(events, counts, author)
  {
    if events != [] {
      var n := |events| - 1;
      CountedSameCurrent(events[..n], counts, author);
      CountedStep(events, counts);
      assert events == events[..n] + [events[n]];
      if counts(events[n]) {
        SnocSameCurrent(Counted(events[..n], counts), events[..n], events[n], counts, author);
      } else {
        UncountedSameCurrent(events[..n], events[n], counts, author);
      }
    }
  }

  lemma UncountedSameCurrent(a: seq<Event>, e: Event, counts: Inclusion, author: Text)
    requires !counts(e)
    ensures CurrentOf(a + [e], counts, author) == CurrentOf(a, counts, author)
  {
  }

  lemma CountedStep(events: seq<Event>, counts: Inclusion)
    requires events != []
    ensures var n := |events| - 1;
            Counted(events, counts) == if counts(events[n]) then Counted(events[..n], counts) + [events[n]]
                                       else Counted(events[..n], counts)
  {
  }

  /** Resolving a list is resolving what counts in it. */
  lemma ResolvesCounted(events: seq<Event>, counts: Inclusion)
    ensures OwnerEvent(Counted(events, counts), counts) == OwnerEvent(events, counts)
  {
    forall author
      ensures CurrentOf(Counted(events, counts), counts, author) == CurrentOf(events, counts, author)
    {
      CountedSameCurrent(events, counts, author);
    }
    SameCurrentsSameOwner(Counted(events, counts), events, counts);
  }

  lemma {:induction false} CountedInsert(before: seq<Event>, x: Event, after: seq<Event>, counts: Inclusion)
    requires !counts(x)
    ensures Counted(before + [x] + after, counts) == Counted(before + after, counts)
  {
    if after == [] {
      assert before + [x] + after == before + [x] && before + after == before;
      assert (before + [x])[..|before|] == before;
    } else {
      var m := |after| - 1;
      CountedInsert(before, x, after[..m], counts);
      assert (before + [x] + after)[..|before| + 1 + m] == before + [x] + after[..m];
      assert (before + after)[..|before| + m] == before + after[..m];
    }
  }

  lemma {:induction false} CountedExactly(events: seq<Event>, counts: Inclusion, e: Event)
    ensures e in Counted(events, counts) <==> e in events && counts(e)
  {
    if events != [] {
      var n := |events| - 1;
      CountedExactly(events[..n], counts, e);
      assert events == events[..n] + [events[n]];
    }
  }

  /** Which events can decide about a nametag at all: the signed ones that bind it, and no others. */
  lemma NametagCounts(reg: Registry, events: seq<Event>, nametag: Text, e: Event)
    ensures e in Counted(events, reg.ForNametag(nametag)) <==>
            && e in events
            && e.kind == 30078
            && TagValue(e.tags, Lit("d")) == Some(reg.hashNametag(nametag))
            && (exists h :: reg.contentString(e.content, Lit("nametag_hash")) == Some(h) && h != [])
            && (exists a :: reg.contentString(e.content, Lit("address")) == Some(a) && a != [])
            && Verify(reg.p, e)
    ensures OwnerEvent(events, reg.ForNametag(nametag)) == Some(e) ==> e in Counted(events, reg.ForNametag(nametag))
  {
    CountedExactly(events, reg.ForNametag(nametag), e);
    BindsExactly(reg, nametag, e);
    OwnerCounts(events, reg.ForNametag(nametag));
  }

  /** A list of two, case by case: the later event of one author, or the only marked one of two. */
  lemma TwoEvents(e: Event, f: Event, counts: Inclusion)
    requires counts(e) && counts(f)
    ensures OwnerEvent([e, f], counts) ==
            if e.pubkey == f.pubkey then Some(if f.createdAt > e.createdAt then f else e)
            else if Marked(e) && !Marked(f) then Some(e)
            else if Marked(f) && !Marked(e) then Some(f)
            else None
  {
    var events := [e, f];
    var superseded := e.pubkey == f.pubkey && f.createdAt > e.createdAt;
    var stale := e.pubkey == f.pubkey && f.createdAt <= e.createdAt;
    assert Current(events, counts, 0) <==> !superseded by {
      assert events[1].pubkey == f.pubkey;
    }
    assert Current(events, counts, 1) <==> !stale by {
      assert events[0].pubkey == e.pubkey;
    }
    if superseded || (Marked(f) && !Marked(e) && !stale) {
      OwnerUnique(events, counts, 1);
    } else if stale || (Marked(e) && !Marked(f)) {
      OwnerUnique(events, counts, 0);
    }
  }

  lemma CountedDecide(a: seq<Event>, b: seq<Event>, counts: Inclusion)
    requires Counted(a, counts) == Counted(b, counts)
    ensures OwnerEvent(a, counts) == OwnerEvent(b, counts)
  {
    ResolvesCounted(a, counts);
    ResolvesCounted(b, counts);
  }

  /**
   Injection: two answers to a query for a nametag that agree on its valid bindings resolve
   to the same event, whatever else a relay mixed in and wherever.
   */
  lemma InjectionIsIgnored(reg: Registry, a: seq<Event>, b: seq<Event>, nametag: Text)
    requires Counted(a, reg.ForNametag(nametag)) == Counted(b, reg.ForNametag(nametag))
    ensures OwnerEvent(a, reg.ForNametag(nametag)) == OwnerEvent(b, reg.ForNametag(nametag))
  {
    CountedDecide(a, b, reg.ForNametag(nametag));
  }

  /** In particular one more event of the wrong kind, content, signature or `d` tag, anywhere. */
  lemma InsertedIsIgnored(reg: Registry, before: seq<Event>, x: Event, after: seq<Event>, nametag: Text)
    requires !reg.IsValidBinding(x) || TagValue(x.tags, Lit("d")) != Some(reg.hashNametag(nametag))
    ensures OwnerEvent(before + [x] + after, reg.ForNametag(nametag))
         == OwnerEvent(before + after, reg.ForNametag(nametag))
  {
    CountedInsert(before, x, after, reg.ForNametag(nametag));
    InjectionIsIgnored(reg, before + [x] + after, before + after, nametag);
  }

  /** What is not a valid binding, such as one with an empty address, is never resolved, whatever it is listed with. */
  lemma InvalidNeverOwns(reg: Registry, events: seq<Event>, e: Event, nametag: Text)
    requires !reg.IsValidBinding(e)
    ensures OwnerEvent(events, reg.ForNametag(nametag)) != Some(e)
  {
    OwnerCounts(events, reg.ForNametag(nametag));
  }

  lemma OwnerCounts(events: seq<Event>, counts: Inclusion)
    ensures OwnerEvent(events, counts).Some? ==> counts(OwnerEvent(events, counts).value)
  {
  }

  // ---- Authors are texts, not keys ----

  /** The counted events name their authors by hex without capitals. */
  ghost predicate PlainlyNamed(events: seq<Event>, counts: Inclusion) {
    forall i :: 0 <= i < |events| && counts(events[i]) ==>
      HexDecode(events[i].pubkey).Some? && NoUppercase(events[i].pubkey)
  }

  /** Then one author is one key. */
  lemma AuthorsAreKeys(events: seq<Event>, counts: Inclusion, i: nat, j: nat)
    requires PlainlyNamed(events, counts) && i < |events| && j < |events|
    requires counts(events[i]) && counts(events[j])
    ensures events[i].pubkey == events[j].pubkey <==> HexDecode(events[i].pubkey) == HexDecode(events[j].pubkey)
  {
    HexSpelledOnce(events[i].pubkey, HexDecode(events[i].pubkey).value);
    HexSpelledOnce(events[j].pubkey, HexDecode(events[j].pubkey).value);
  }

  /** Two spellings are two authors, who are in each other's way. */
  lemma TwoAuthorsNoOwner(e: Event, f: Event, counts: Inclusion)
    requires counts(e) && counts(f) && e.pubkey != f.pubkey && Marked(e) == Marked(f)
    ensures Owner([e, f], counts) == None
  {
    TwoEvents(e, f, counts);
  }

  // ---- Repeated ids do not matter ----

  predicate HasId(events: seq<Event>, id: Text) {
    exists i :: 0 <= i < |events| && events[i].id == id
  }

  /** The first occurrence of every id. */
  function Deduplicated(events: seq<Event>): seq<Event> {
    if events == [] then []
    else
      var n := |events| - 1;
      Deduplicated(events[..n]) + if HasId(events[..n], events[n].id) then [] else [events[n]]
  }

  /** No earlier event has the id of event `n`. */
  predicate First(events: seq<Event>, n: nat) {
    n < |events| && forall m :: 0 <= m < n ==> events[m].id != events[n].id
  }

  /** `at` lists the positions of the first occurrences, in order, and `out` the events there. */
  ghost predicate KeepsFirsts(events: seq<Event>, out: seq<Event>, at: seq<nat>) {
    && |at| == |out|
    && (forall i, j :: 0 <= i < j < |at| ==> at[i] < at[j])
    && (forall i :: 0 <= i < |at| ==> First(events, at[i]) && out[i] == events[at[i]])
    && (forall n: nat :: First(events, n) ==> n in at)
  }

  lemma FirstSnoc(events: seq<Event>, e: Event, n: nat)
    ensures n < |events| ==> (First(events + [e], n) <==> First(events, n))
    ensures First(events + [e], |events|) <==> !HasId(events, e.id)
  {
    var all := events + [e];
    assert forall m :: 0 <= m < |events| ==> all[m] == events[m];
    assert all[|events|] == e;
  }

  lemma KeepsOne(events: seq<Event>, e: Event, out: seq<Event>, at: seq<nat>)
    requires KeepsFirsts(events, out, at) && !HasId(events, e.id)
    ensures KeepsFirsts(events + [e], out + [e], at + [|events|])
  {
    var all, more := events + [e], at + [|events|];
    forall n: nat
      ensures n < |events| ==> (First(all, n) <==> First(events, n))
      ensures First(all, |events|)
    {
      FirstSnoc(events, e, n);
    }
    forall n: nat | First(all, n)
      ensures n in more
    {
      if n < |events| {
        assert n in at;
      } else {
        assert more[|at|] == n;
      }
    }
  }

  lemma SkipsOne(events: seq<Event>, e: Event, out: seq<Event>, at: seq<nat>)
    requires KeepsFirsts(events, out, at) && HasId(events, e.id)
    ensures KeepsFirsts(events + [e], out, at)
  {
    var all := events + [e];
    forall n: nat
      ensures First(all, n) <==> First(events, n)
    {
      FirstSnoc(events, e, n);
    }
  }

  lemma DeduplicatedStep(before: seq<Event>, e: Event)
    ensures Deduplicated(before + [e]) == Deduplicated(before) + if HasId(before, e.id) then [] else [e]
  {
    assert (before + [e])[..|before|] == before;
  }

  /** What is kept are the first occurrences of all ids. */
  lemma {:induction false} DeduplicatedExactly(events: seq<Event>) returns (at: seq<nat>)
    ensures KeepsFirsts(events, Deduplicated(events), at)
  {
    if events == [] {
      at := [];
    } else {
      var before, e := events[..|events| - 1], events[|events| - 1];
      at := DeduplicatedExactly(before);
      assert events == before + [e];
      DeduplicatedStep(before, e);
      if HasId(before, e.id) {
        SkipsOne(before, e, Deduplicated(before), at);
        assert Deduplicated(before) + [] == Deduplicated(before);
      } else {
        KeepsOne(before, e, Deduplicated(before), at);
        at := at + [|before|];
      }
    }
  }

  /** Equal ids mean equal signed fields. */
  ghost predicate IdsCommit(events: seq<Event>) {
    forall e, f :: e in events && f in events && e.id == f.id ==> FieldsOf(e) == FieldsOf(f)
  }

  /** The rule may look at the signed fields only, for the events at hand. */
  ghost predicate FieldsDecide(events: seq<Event>, counts: Inclusion) {
    forall e, f :: e in events && f in events && FieldsOf(e) == FieldsOf(f) ==> counts(e) == counts(f)
  }

  lemma {:induction false} DeduplicatedSameCurrent(events: seq<Event>, counts: Inclusion, author: Text)
    requires IdsCommit(events) && FieldsDecide(events, counts)
    ensures CurrentOf(Deduplicated(events), counts, author) == CurrentOf(events, counts, author)
  {
    if events != [] {
      var before, e := events[..|events| - 1], events[|events| - 1];
      assert events == before + [e];
      PrefixKeeps(events, |before|, counts);
      DeduplicatedSameCurrent(before, counts, author);
      DeduplicatedStep(before, e);
      if HasId(before, e.id) {
        RepeatChangesNothing(events, counts, author);
        assert Deduplicated(before) + [] == Deduplicated(before);
      } else {
        SnocSameCurrent(Deduplicated(before), before, e, counts, author);
      }
    }
  }

  lemma PrefixKeeps(events: seq<Event>, n: nat, counts: Inclusion)
    requires IdsCommit(events) && FieldsDecide(events, counts) && n <= |events|
    ensures IdsCommit(events[..n]) && FieldsDecide(events[..n], counts)
  {
    assert forall e :: e in events[..n] ==> e in events;
  }

  lemma RepeatChangesNothing(events: seq<Event>, counts: Inclusion, author: Text)
    requires IdsCommit(events) && FieldsDecide(events, counts)
    requires events != [] && HasId(events[..|events| - 1], events[|events| - 1].id)
    ensures CurrentOf(events, counts, author) == CurrentOf(events[..|events| - 1], counts, author)
  {
    var n := |events| - 1;
    var e := events[n];
    var k :| 0 <= k < n && events[..n][k].id == e.id;
    var f := events[k];
    assert FieldsOf(f) == FieldsOf(e);
    assert f.pubkey == FieldsOf(f).pubkey == e.pubkey && f.createdAt == FieldsOf(f).createdAt == e.createdAt;
    if counts(f) {
      CurrentOfCovers(events[..n], counts, k);
    }
  }

  lemma ResolvesDeduplicated(events: seq<Event>, counts: Inclusion)
    requires IdsCommit(events) && FieldsDecide(events, counts)
    ensures OwnerEvent(Deduplicated(events), counts) == OwnerEvent(events, counts)
  {
    forall author
      ensures CurrentOf(Deduplicated(events), counts, author) == CurrentOf(events, counts, author)
    {
      DeduplicatedSameCurrent(events, counts, author);
    }
    SameCurrentsSameOwner(Deduplicated(events), events, counts);
  }
}
