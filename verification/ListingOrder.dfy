/**
 Does the order in which relays list events matter? Only through ties: an author whose latest
 counted events share a timestamp but not the marker. `OrderIrrelevantExactly` says when.
 */
module ListingOrder {
  import opened Basics
  import opened Events
  import opened Binding
  import opened Resolution

  /** `e` is among its author's latest counted events. Only the set of listed events matters here. */
  ghost predicate Peak(events: seq<Event>, counts: Inclusion, e: Event) {
    && e in events
    && counts(e)
    && forall f :: f in events && counts(f) && f.pubkey == e.pubkey ==> f.createdAt <= e.createdAt
  }

  ghost predicate MarkedPeak(events: seq<Event>, counts: Inclusion, a: Text) {
    exists e :: Peak(events, counts, e) && e.pubkey == a && Marked(e)
  }

  ghost predicate PlainPeak(events: seq<Event>, counts: Inclusion, a: Text) {
    exists e :: Peak(events, counts, e) && e.pubkey == a && !Marked(e)
  }

  ghost predicate Binds(events: seq<Event>, counts: Inclusion, a: Text) {
    MarkedPeak(events, counts, a) || PlainPeak(events, counts, a)
  }

  /** A tie at the author's latest timestamp between a marked and an unmarked event. */
  ghost predicate Torn(events: seq<Event>, counts: Inclusion, a: Text) {
    MarkedPeak(events, counts, a) && PlainPeak(events, counts, a)
  }

  ghost predicate FirmlyMarked(events: seq<Event>, counts: Inclusion, a: Text) {
    MarkedPeak(events, counts, a) && !PlainPeak(events, counts, a)
  }

  /** The author's current binding, in this order of listing, is marked. */
  ghost predicate CurrentlyMarked(events: seq<Event>, counts: Inclusion, a: Text) {
    CurrentOf(events, counts, a).Some? && Marked(CurrentOf(events, counts, a).value)
  }

  // ---- From the list to its authors ----

  lemma CurrentIsPeak(events: seq<Event>, counts: Inclusion, a: Text)
    requires CurrentOf(events, counts, a).Some?
    ensures var e := CurrentOf(events, counts, a).value; Peak(events, counts, e) && e.pubkey == a
  {
    var i := CurrentOfIndex(events, counts, a);
    var e := events[i];
    forall f | f in events && counts(f) && f.pubkey == e.pubkey
      ensures f.createdAt <= e.createdAt
    {
      var j :| 0 <= j < |events| && events[j] == f;
    }
  }

  lemma PeakHasCurrent(events: seq<Event>, counts: Inclusion, e: Event)
    requires Peak(events, counts, e)
    ensures CurrentOf(events, counts, e.pubkey).Some?
  {
    var j :| 0 <= j < |events| && events[j] == e;
    CurrentOfCovers(events, counts, j);
  }

  lemma BindsIsCurrent(events: seq<Event>, counts: Inclusion, a: Text)
    ensures Binds(events, counts, a) <==> CurrentOf(events, counts, a).Some?
    ensures CurrentlyMarked(events, counts, a) ==> MarkedPeak(events, counts, a)
    ensures Binds(events, counts, a) && !CurrentlyMarked(events, counts, a) ==> PlainPeak(events, counts, a)
  {
    if CurrentOf(events, counts, a).Some? {
      CurrentIsPeak(events, counts, a);
    }
    if e :| Peak(events, counts, e) && e.pubkey == a {
      PeakHasCurrent(events, counts, e);
    }
  }

  /** The owner, as a rule about authors. */
  ghost predicate Wins(events: seq<Event>, counts: Inclusion, a: Text) {
    && Binds(events, counts, a)
    && if CurrentlyMarked(events, counts, a)
       then forall b :: CurrentlyMarked(events, counts, b) ==> b == a
       else forall b :: Binds(events, counts, b) ==> b == a
  }

  lemma WinnerIsOwner(events: seq<Event>, counts: Inclusion, a: Text)
    requires Wins(events, counts, a)
    ensures OwnerPubkey(events, counts) == Some(a)
  {
    BindsIsCurrent(events, counts, a);
    var i := CurrentOfIndex(events, counts, a);
    forall j: nat | Current(events, counts, j) && (Marked(events[i]) ==> Marked(events[j]))
      ensures j == i
    {
      CurrentIsCurrentOf(events, counts, j);
      BindsIsCurrent(events, counts, events[j].pubkey);
    }
    assert Owns(events, counts, i);
    OwnerUnique(events, counts, i);
  }

  lemma OwnerIsWinner(events: seq<Event>, counts: Inclusion, a: Text)
    requires OwnerPubkey(events, counts) == Some(a)
    ensures Wins(events, counts, a)
  {
    var i := Owner(events, counts).value;
    CurrentIsCurrentOf(events, counts, i);
    BindsIsCurrent(events, counts, a);
    forall b | Binds(events, counts, b) && (Marked(events[i]) ==> CurrentlyMarked(events, counts, b))
      ensures b == a
    {
      BindsIsCurrent(events, counts, b);
      var j := CurrentOfIndex(events, counts, b);
      assert j == i;
    }
    forall b | CurrentlyMarked(events, counts, b)
      ensures Binds(events, counts, b)
    {
      BindsIsCurrent(events, counts, b);
    }
  }

  // ---- When any order gives one answer ----

  ghost predicate SameEvents(a: seq<Event>, b: seq<Event>) {
    forall e :: e in a <==> e in b
  }

  lemma SamePeaks(a: seq<Event>, b: seq<Event>, counts: Inclusion, author: Text)
    requires SameEvents(a, b)
    ensures MarkedPeak(a, counts, author) == MarkedPeak(b, counts, author)
    ensures PlainPeak(a, counts, author) == PlainPeak(b, counts, author)
  {
  }

  /** No tie is torn, or there is only one author, or two authors are marked whatever the order. */
  ghost predicate Settled(events: seq<Event>, counts: Inclusion) {
    || (forall a :: !Torn(events, counts, a))
    || (forall a, b :: Binds(events, counts, a) && Binds(events, counts, b) ==> a == b)
    || (exists a, b :: a != b && FirmlyMarked(events, counts, a) && FirmlyMarked(events, counts, b))
  }

  lemma SettledWinner(a: seq<Event>, b: seq<Event>, counts: Inclusion, author: Text)
    requires SameEvents(a, b) && Settled(a, counts) && Wins(a, counts, author)
    ensures Wins(b, counts, author)
  {
    forall x
      ensures Binds(a, counts, x) == Binds(b, counts, x) && FirmlyMarked(a, counts, x) == FirmlyMarked(b, counts, x)
      ensures !Torn(a, counts, x) ==> CurrentlyMarked(a, counts, x) == CurrentlyMarked(b, counts, x)
      ensures CurrentlyMarked(b, counts, x) ==> Binds(b, counts, x)
      ensures FirmlyMarked(a, counts, x) ==> CurrentlyMarked(a, counts, x)
    {
      SamePeaks(a, b, counts, x);
      BindsIsCurrent(a, counts, x);
      BindsIsCurrent(b, counts, x);
    }
  }

  /** The resolved key is the winner's, and a list without a winner resolves to nobody. */
  lemma OwnerExactly(events: seq<Event>, counts: Inclusion, a: Text)
    ensures OwnerPubkey(events, counts) == Some(a) <==> Wins(events, counts, a)
  {
    if OwnerPubkey(events, counts) == Some(a) {
      OwnerIsWinner(events, counts, a);
    }
    if Wins(events, counts, a) {
      WinnerIsOwner(events, counts, a);
    }
  }

  lemma SettledAnyOrder(a: seq<Event>, b: seq<Event>, counts: Inclusion)
    requires SameEvents(a, b) && Settled(a, counts)
    ensures OwnerPubkey(a, counts) == OwnerPubkey(b, counts)
  {
    SettledSame(a, b, counts);
    if OwnerPubkey(a, counts).Some? {
      var x := OwnerPubkey(a, counts).value;
      OwnerExactly(a, counts, x);
      SettledWinner(a, b, counts, x);
      OwnerExactly(b, counts, x);
    } else if OwnerPubkey(b, counts).Some? {
      var x := OwnerPubkey(b, counts).value;
      OwnerExactly(b, counts, x);
      SettledWinner(b, a, counts, x);
      OwnerExactly(a, counts, x);
    }
  }

  lemma SettledSame(a: seq<Event>, b: seq<Event>, counts: Inclusion)
    requires SameEvents(a, b) && Settled(a, counts)
    ensures Settled(b, counts)
  {
    forall x
      ensures Binds(a, counts, x) == Binds(b, counts, x)
      ensures Torn(a, counts, x) == Torn(b, counts, x)
      ensures FirmlyMarked(a, counts, x) == FirmlyMarked(b, counts, x)
    {
      SamePeaks(a, b, counts, x);
    }
    if x, y :| x != y && FirmlyMarked(a, counts, x) && FirmlyMarked(a, counts, y) {
      assert FirmlyMarked(b, counts, x) && FirmlyMarked(b, counts, y);
    }
  }

  // ---- When it does not: moving the right events to the front ----

  predicate Preferred(e: Event, favoured: set<Text>) {
    Marked(e) <==> e.pubkey in favoured
  }

  /** The events of `events` that are preferred, or those that are not. */
  function Selected(events: seq<Event>, favoured: set<Text>, preferred: bool): (r: seq<Event>)
    ensures forall e :: e in r ==> Preferred(e, favoured) == preferred
  {
    if events == [] then []
    else
      var n := |events| - 1;
      Selected(events[..n], favoured, preferred)
      + if Preferred(events[n], favoured) == preferred then [events[n]] else []
  }

  /** First the marked events of favoured authors and the plain ones of the others; then the rest. */
  function Rearranged(events: seq<Event>, favoured: set<Text>): seq<Event> {
    Selected(events, favoured, true) + Selected(events, favoured, false)
  }

  lemma {:induction false} RearrangedPermutes(events: seq<Event>, favoured: set<Text>)
    ensures multiset(Rearranged(events, favoured)) == multiset(events)
  {
    if events != [] {
      var n := |events| - 1;
      RearrangedPermutes(events[..n], favoured);
      assert events == events[..n] + [events[n]];
    }
  }

  lemma PermutedSameEvents(a: seq<Event>, b: seq<Event>)
    requires multiset(a) == multiset(b)
    ensures SameEvents(a, b)
  {
    forall e
      ensures e in a <==> e in b
    {
      assert e in a <==> e in multiset(a);
      assert e in b <==> e in multiset(b);
    }
  }

  /** A torn author is marked in the rearrangement exactly when favoured. */
  lemma TornObeys(events: seq<Event>, counts: Inclusion, favoured: set<Text>, a: Text)
    requires Torn(events, counts, a)
    ensures CurrentlyMarked(Rearranged(events, favoured), counts, a) <==> a in favoured
  {
    var list := Rearranged(events, favoured);
    RearrangedPermutes(events, favoured);
    PermutedSameEvents(list, events);
    SamePeaks(list, events, counts, a);
    BindsIsCurrent(list, counts, a);
    var i := CurrentOfIndex(list, counts, a);
    CurrentIsPeak(list, counts, a);
    var e: Event :| Peak(list, counts, e) && e.pubkey == a && Marked(e) == (a in favoured);
    var front := Selected(events, favoured, true);
    assert e in list && Preferred(e, favoured);
    assert e in front;
    var j :| 0 <= j < |front| && front[j] == e;
    assert list[j] == e;
    assert i <= j;
    assert list[i] in front;
  }

  /**
   The order of listing is irrelevant to who is resolved exactly when the list is settled.
   */
  lemma OrderIrrelevantExactly(events: seq<Event>, counts: Inclusion)
    ensures Settled(events, counts) <==>
            forall other :: multiset(other) == multiset(events) ==>
              OwnerPubkey(other, counts) == OwnerPubkey(events, counts)
  {
    if Settled(events, counts) {
      forall other | multiset(other) == multiset(events)
        ensures OwnerPubkey(other, counts) == OwnerPubkey(events, counts)
      {
        PermutedSameEvents(events, other);
        SettledAnyOrder(events, other, counts);
      }
    } else {
      var a, b := Disagreeing(events, counts);
    }
  }

  lemma Disagreeing(events: seq<Event>, counts: Inclusion) returns (a: seq<Event>, b: seq<Event>)
    requires !Settled(events, counts)
    ensures multiset(a) == multiset(events) && multiset(b) == multiset(events)
    ensures OwnerPubkey(a, counts) != OwnerPubkey(b, counts)
  {
    var c :| Torn(events, counts, c);
    a, b := Rearranged(events, {}), Rearranged(events, {c});
    RearrangedPermutes(events, {});
    RearrangedPermutes(events, {c});
    Favours(events, counts, {});
    Favours(events, counts, {c});
    forall x
      ensures Torn(events, counts, x) && x in {c} <==> x == c
    {
    }
    FavourDecides(events, counts, a, b, c);
  }

  lemma FavourDecides(events: seq<Event>, counts: Inclusion, a: seq<Event>, b: seq<Event>, c: Text)
    requires !Settled(events, counts) && Torn(events, counts, c)
    requires forall x :: CurrentlyMarked(a, counts, x) <==> FirmlyMarked(events, counts, x)
    requires forall x :: CurrentlyMarked(b, counts, x) <==> FirmlyMarked(events, counts, x) || x == c
    requires forall x :: Binds(events, counts, x) == Binds(a, counts, x) == Binds(b, counts, x)
    ensures OwnerPubkey(a, counts) != OwnerPubkey(b, counts)
  {
    assert Binds(events, counts, c);
    if s :| FirmlyMarked(events, counts, s) {
      // Without a favour `s` alone is marked; with one, `c` is as well.
      assert c != s && Binds(events, counts, s);
      LoneMarkedLoses(a, b, counts, s, c);
    } else {
      // Without a favour nobody is marked and there are several authors; with one, `c` wins.
      var x, y :| Binds(events, counts, x) && Binds(events, counts, y) && x != y;
      FavouriteWins(a, b, counts, c, if x == c then y else x);
    }
  }

  lemma LoneMarkedLoses(a: seq<Event>, b: seq<Event>, counts: Inclusion, s: Text, c: Text)
    requires Binds(a, counts, s) && CurrentlyMarked(a, counts, s)
    requires forall x :: CurrentlyMarked(a, counts, x) ==> x == s
    requires CurrentlyMarked(b, counts, s) && CurrentlyMarked(b, counts, c) && c != s
    ensures OwnerPubkey(a, counts) != OwnerPubkey(b, counts)
  {
    OwnerExactly(a, counts, s);
    OwnerExactly(b, counts, s);
  }

  lemma FavouriteWins(a: seq<Event>, b: seq<Event>, counts: Inclusion, c: Text, other: Text)
    requires !CurrentlyMarked(a, counts, c) && Binds(a, counts, other) && other != c
    requires Binds(b, counts, c) && forall x :: CurrentlyMarked(b, counts, x) <==> x == c
    ensures OwnerPubkey(a, counts) != OwnerPubkey(b, counts)
  {
    OwnerExactly(a, counts, c);
    OwnerExactly(b, counts, c);
  }

  /** Who is marked after favouring: the firmly marked, and the torn that are favoured. */
  lemma Favours(events: seq<Event>, counts: Inclusion, favoured: set<Text>)
    ensures forall x :: CurrentlyMarked(Rearranged(events, favoured), counts, x) <==>
              FirmlyMarked(events, counts, x) || (Torn(events, counts, x) && x in favoured)
    ensures forall x :: Binds(Rearranged(events, favoured), counts, x) == Binds(events, counts, x)
  {
    var list := Rearranged(events, favoured);
    RearrangedPermutes(events, favoured);
    PermutedSameEvents(list, events);
    forall x
      ensures Binds(list, counts, x) == Binds(events, counts, x)
      ensures CurrentlyMarked(list, counts, x) <==>
              FirmlyMarked(events, counts, x) || (Torn(events, counts, x) && x in favoured)
    {
      SamePeaks(list, events, counts, x);
      BindsIsCurrent(list, counts, x);
      if Torn(events, counts, x) {
        TornObeys(events, counts, favoured, x);
      }
    }
  }

  // ---- An order that matters ----

  /** A tie between a marked and an unmarked event of one author, in the presence of another author. */
  ghost predicate TiedBeside(m: Event, u: Event, o: Event, counts: Inclusion) {
    && counts(m) && counts(u) && counts(o)
    && Marked(m) && !Marked(u) && !Marked(o)
    && m.pubkey == u.pubkey != o.pubkey && m.createdAt == u.createdAt
  }

  /** Of two events of one author at one time, the first listed is current, beside the other author's. */
  lemma CurrentsOfThree(a: Event, b: Event, c: Event, counts: Inclusion, i: nat)
    requires counts(a) && counts(b) && counts(c)
    requires a.pubkey == b.pubkey != c.pubkey && a.createdAt == b.createdAt
    ensures Current([a, b, c], counts, i) <==> i == 0 || i == 2
  {
    var events := [a, b, c];
    if i == 1 {
      assert events[0].pubkey == events[1].pubkey && counts(events[0]);
    }
  }

  lemma MarkedFirst(m: Event, u: Event, o: Event, counts: Inclusion)
    requires TiedBeside(m, u, o, counts)
    ensures OwnerPubkey([m, u, o], counts) == Some(m.pubkey)
  {
    var events := [m, u, o];
    forall i: nat
      ensures Current(events, counts, i) <==> i == 0 || i == 2
    {
      CurrentsOfThree(m, u, o, counts, i);
    }
    OwnerUnique(events, counts, 0);
  }

  lemma PlainFirst(m: Event, u: Event, o: Event, counts: Inclusion)
    requires TiedBeside(m, u, o, counts)
    ensures OwnerPubkey([u, m, o], counts) == None
  {
    var events := [u, m, o];
    forall i: nat
      ensures Current(events, counts, i) <==> i == 0 || i == 2
    {
      CurrentsOfThree(u, m, o, counts, i);
    }
    assert Current(events, counts, 0) && Current(events, counts, 2);
  }

  /** Listing the marked event first gets its author resolved; listing it second gets nobody. */
  lemma OrderMatters(m: Event, u: Event, o: Event, counts: Inclusion)
    requires TiedBeside(m, u, o, counts)
    ensures OwnerPubkey([m, u, o], counts) == Some(m.pubkey)
    ensures OwnerPubkey([u, m, o], counts) == None
    ensures multiset([m, u, o]) == multiset([u, m, o])
    ensures !Settled([m, u, o], counts)
  {
    MarkedFirst(m, u, o, counts);
    PlainFirst(m, u, o, counts);
    DisagreeingUnsettled([m, u, o], [u, m, o], counts);
  }

  lemma DisagreeingUnsettled(a: seq<Event>, b: seq<Event>, counts: Inclusion)
    requires multiset(a) == multiset(b) && OwnerPubkey(a, counts) != OwnerPubkey(b, counts)
    ensures !Settled(a, counts)
  {
    PermutedSameEvents(a, b);
    if Settled(a, counts) {
      SettledAnyOrder(a, b, counts);
    }
  }
}
