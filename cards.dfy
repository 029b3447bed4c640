/**
 * Cards as the study session sees them, and the two order-preserving
 * filters the session applies to its working order: the cards whose id is
 * not yet known (`remainingCards`) and the ones whose id is known.
 */
module Cards {

  /** A row of the cards table; `id` is its primary key. */
  datatype Card = Card(id: int, front: string, back: string)

  /** No two positions of `s` hold cards with the same id. */
  ghost predicate UniqueIds(s: seq<Card>) {
    forall i, j | 0 <= i < j < |s| :: s[i].id != s[j].id
  }

  /** `a` and `b` hold the same cards, each as often, in any order. */
  ghost predicate IsPermutation(a: seq<Card>, b: seq<Card>) {
    multiset(a) == multiset(b)
  }

  /** The ids of the cards of `s`. */
  ghost function IdsOf(s: seq<Card>): set<int> {
    set c | c in s :: c.id
  }

  /** The cards of `s` whose id is not in `known`, in their order in `s`. */
  function Unknown(s: seq<Card>, known: set<int>): (r: seq<Card>)
    ensures |r| <= |s|
  {
    if s == [] then []
    else if s[0].id in known then Unknown(s[1..], known)
    else [s[0]] + Unknown(s[1..], known)
  }

  /** The cards of `s` whose id is in `known`, in their order in `s`. */
  function Known(s: seq<Card>, known: set<int>): (r: seq<Card>)
    ensures |r| <= |s|
  {
    if s == [] then []
    else if s[0].id in known then [s[0]] + Known(s[1..], known)
    else Known(s[1..], known)
  }

  /** A card is unknown in `s` exactly when it is in `s` and its id is not known. */
  lemma {:induction false} UnknownMembers(s: seq<Card>, known: set<int>, c: Card)
    ensures c in Unknown(s, known) <==> c in s && c.id !in known
  {
    if s != [] {
      UnknownMembers(s[1..], known, c);
      assert c in s <==> c == s[0] || c in s[1..];
    }
  }

  /** A card is known in `s` exactly when it is in `s` and its id is known. */
  lemma {:induction false} KnownMembers(s: seq<Card>, known: set<int>, c: Card)
    ensures c in Known(s, known) <==> c in s && c.id in known
  {
    if s != [] {
      KnownMembers(s[1..], known, c);
      assert c in s <==> c == s[0] || c in s[1..];
    }
  }

  /** Filtering a concatenation filters each part. */
  lemma {:induction false} UnknownAppend(a: seq<Card>, b: seq<Card>, known: set<int>)
    ensures Unknown(a + b, known) == Unknown(a, known) + Unknown(b, known)
  {
    if a != [] {
      assert (a + b)[0] == a[0];
      assert (a + b)[1..] == a[1..] + b;
      UnknownAppend(a[1..], b, known);
      if a[0].id !in known {
        assert [a[0]] + (Unknown(a[1..], known) + Unknown(b, known))
            == ([a[0]] + Unknown(a[1..], known)) + Unknown(b, known);
      }
    } else {
      assert a + b == b;
    }
  }

  /** A sequence none of whose ids is known passes the filter whole. */
  lemma {:induction false} UnknownOfFresh(s: seq<Card>, known: set<int>)
    requires forall c | c in s :: c.id !in known
    ensures Unknown(s, known) == s
  {
    if s != [] {
      assert forall c | c in s[1..] :: c in s;
      UnknownOfFresh(s[1..], known);
    }
  }

  /** A sequence all of whose ids are known is filtered out entirely. */
  lemma {:induction false} UnknownOfKnown(s: seq<Card>, known: set<int>)
    requires forall c | c in s :: c.id in known
    ensures Unknown(s, known) == []
  {
    if s != [] {
      assert forall c | c in s[1..] :: c in s;
      UnknownOfKnown(s[1..], known);
    }
  }

  /** The unknown and the known cards of `s` together are `s`, up to order. */
  lemma {:induction false} PartitionIsPermutation(s: seq<Card>, known: set<int>)
    ensures multiset(Unknown(s, known)) + multiset(Known(s, known)) == multiset(s)
  {
    if s != [] {
      PartitionIsPermutation(s[1..], known);
      assert s == [s[0]] + s[1..];
    }
  }

  /** Marking an id that no card of `s` carries changes nothing. */
  lemma {:induction false} UnknownIgnoresAbsentId(s: seq<Card>, known: set<int>, x: int)
    requires forall c | c in s :: c.id != x
    ensures Unknown(s, known + {x}) == Unknown(s, known)
  {
    if s != [] {
      assert forall c | c in s[1..] :: c in s;
      UnknownIgnoresAbsentId(s[1..], known, x);
    }
  }

  /** Dropping the first card keeps the ids unique. */
  lemma UniqueIdsTail(s: seq<Card>)
    requires UniqueIds(s) && s != []
    ensures UniqueIds(s[1..])
  {
    forall a, b | 0 <= a < b < |s[1..]| ensures s[1..][a].id != s[1..][b].id {
      assert s[1..][a] == s[a + 1] && s[1..][b] == s[b + 1];
    }
  }

  /** With unique ids, no later card carries the id of the first. */
  lemma HeadIdNotInTail(s: seq<Card>)
    requires UniqueIds(s) && s != []
    ensures forall c | c in s[1..] :: c.id != s[0].id
  {
    forall c | c in s[1..] ensures c.id != s[0].id {
      var j :| 0 <= j < |s[1..]| && s[1..][j] == c;
      assert s[j + 1] == c;
    }
  }

  /**
   * With unique ids, marking the id of the i-th unknown card removes exactly
   * that card: the cards after it slide down by one position.
   */
  lemma {:induction false} UnknownRemove(s: seq<Card>, known: set<int>, i: nat)
    requires UniqueIds(s)
    requires i < |Unknown(s, known)|
    ensures var r := Unknown(s, known);
      Unknown(s, known + {r[i].id}) == r[..i] + r[i + 1..]
  {
    var r := Unknown(s, known);
    var x := r[i].id;
    var tail := Unknown(s[1..], known);
    UniqueIdsTail(s);
    if s[0].id in known {
      assert r == tail;
      UnknownRemove(s[1..], known, i);
    } else {
      assert r == [s[0]] + tail;
      HeadIdNotInTail(s);
      if i == 0 {
        UnknownIgnoresAbsentId(s[1..], known, x);
      } else {
        assert r[i] == tail[i - 1];
        UnknownMembers(s[1..], known, r[i]);
        assert x != s[0].id;
        UnknownRemove(s[1..], known, i - 1);
        assert r[..i] + r[i + 1..] == [s[0]] + (tail[..i - 1] + tail[i..]);
      }
    }
  }

  /** Removing position k of a sequence with unique ids keeps the ids unique. */
  lemma UniqueIdsRemove(s: seq<Card>, k: nat)
    requires UniqueIds(s) && k < |s|
    ensures UniqueIds(s[..k] + s[k + 1..])
  {
    var t := s[..k] + s[k + 1..];
    forall a, b | 0 <= a < b < |t| ensures t[a].id != t[b].id {
      var a' := if a < k then a else a + 1;
      var b' := if b < k then b else b + 1;
      assert t[a] == s[a'] && t[b] == s[b'];
    }
  }

  /** Removing position k takes one copy of a[k] out of the multiset. */
  lemma MultisetRemoveAt(a: seq<Card>, k: nat)
    requires k < |a|
    ensures multiset(a[..k] + a[k + 1..]) == multiset(a) - multiset{a[k]}
  {
    assert a == a[..k] + [a[k]] + a[k + 1..];
    assert multiset(a) == multiset(a[..k]) + multiset{a[k]} + multiset(a[k + 1..]);
    assert multiset(a[..k] + a[k + 1..]) == multiset(a[..k]) + multiset(a[k + 1..]);
  }

  /** In a permutation of `b`, the first card of `b` sits at some k whose removal leaves a permutation of the rest of `b`. */
  lemma MatchFirst(a: seq<Card>, b: seq<Card>) returns (k: nat)
    requires IsPermutation(a, b) && b != []
    ensures k < |a| && a[k] == b[0]
    ensures IsPermutation(a[..k] + a[k + 1..], b[1..])
  {
    assert b[0] in a by {
      assert b[0] in multiset(b);
    }
    k :| 0 <= k < |a| && a[k] == b[0];
    assert multiset(a[..k] + a[k + 1..]) == multiset(a) - multiset{b[0]} by {
      MultisetRemoveAt(a, k);
    }
    assert multiset(b[1..]) == multiset(b) - multiset{b[0]} by {
      assert b == [b[0]] + b[1..];
      assert multiset(b) == multiset{b[0]} + multiset(b[1..]);
    }
  }

  /** Unique ids survive any reordering. */
  lemma {:induction false} UniqueIdsPermutation(a: seq<Card>, b: seq<Card>)
    requires IsPermutation(a, b) && UniqueIds(a)
    ensures UniqueIds(b)
    decreases |b|
  {
    if b != [] {
      var k := MatchFirst(a, b);
      var rest := a[..k] + a[k + 1..];
      UniqueIdsRemove(a, k);
      UniqueIdsPermutation(rest, b[1..]);
      forall j | 1 <= j < |b| ensures b[0].id != b[j].id {
        assert b[j] in multiset(b[1..]) by { assert b[j] == b[1..][j - 1]; }
        assert b[j] in multiset(rest);
        var m :| 0 <= m < |rest| && rest[m] == b[j];
        assert rest[m] == a[if m < k then m else m + 1];
      }
      forall i, j | 0 <= i < j < |b| ensures b[i].id != b[j].id {
        if i > 0 {
          assert b[i] == b[1..][i - 1] && b[j] == b[1..][j - 1];
        }
      }
    }
  }

  /**
   * Marking the i-th unknown card of a permutation of a deck with unique ids:
   * its id was not yet known, belongs to the deck, and exactly that card
   * leaves the unknown cards.
   */
  lemma MarkKnown(s: seq<Card>, deck: seq<Card>, known: set<int>, i: nat)
    requires UniqueIds(deck) && IsPermutation(s, deck)
    requires i < |Unknown(s, known)|
    ensures var r := Unknown(s, known);
      && r[i].id !in known
      && r[i].id in IdsOf(deck)
      && Unknown(s, known + {r[i].id}) == r[..i] + r[i + 1..]
      && |Unknown(s, known + {r[i].id})| == |r| - 1
  {
    var r := Unknown(s, known);
    UniqueIdsPermutation(deck, s);
    UnknownRemove(s, known, i);
    UnknownMembers(s, known, r[i]);
    assert r[i] in multiset(deck) by { assert r[i] in multiset(s); }
  }

  /** Every card of a reordering of the unknown cards has an unknown id. */
  lemma ReorderedUnknown(s: seq<Card>, known: set<int>, order: seq<Card>)
    requires IsPermutation(order, Unknown(s, known))
    ensures forall c | c in order :: c.id !in known
  {
    forall c | c in order ensures c.id !in known {
      assert c in multiset(Unknown(s, known));
      UnknownMembers(s, known, c);
    }
  }

  /** Every card in the known part has a known id. */
  lemma KnownHaveKnownIds(s: seq<Card>, known: set<int>)
    ensures forall c | c in Known(s, known) :: c.id in known
  {
    forall c | c in Known(s, known) ensures c.id in known {
      KnownMembers(s, known, c);
    }
  }

  /**
   * Putting a reordering of the unknown cards of `s` in front of its known
   * cards gives a reordering of `s` whose unknown cards are exactly that
   * reordering, with every known card behind them.
   */
  lemma UnknownFirst(s: seq<Card>, known: set<int>, order: seq<Card>)
    requires IsPermutation(order, Unknown(s, known))
    ensures var t := order + Known(s, known);
      && IsPermutation(t, s)
      && Unknown(t, known) == order
      && forall i | |order| <= i < |t| :: t[i].id in known
  {
    var knownCards := Known(s, known);
    var t := order + knownCards;
    assert IsPermutation(t, s) by {
      PartitionIsPermutation(s, known);
      assert multiset(t) == multiset(order) + multiset(knownCards);
    }
    assert Unknown(t, known) == order by {
      ReorderedUnknown(s, known, order);
      KnownHaveKnownIds(s, known);
      UnknownAppend(order, knownCards, known);
      UnknownOfFresh(order, known);
      UnknownOfKnown(knownCards, known);
    }
    forall i | |order| <= i < |t| ensures t[i].id in known {
      KnownMembers(s, known, knownCards[i - |order|]);
      assert t[i] == knownCards[i - |order|];
    }
  }

  /** The ids of a sequence are the id of its first card and the ids of the rest. */
  lemma IdsOfCons(s: seq<Card>)
    requires s != []
    ensures IdsOf(s) == {s[0].id} + IdsOf(s[1..])
  {
    forall x | x in IdsOf(s) ensures x in {s[0].id} + IdsOf(s[1..]) {
      var c :| c in s && c.id == x;
      if c != s[0] {
        assert c in s[1..];
      }
    }
    forall x | x in IdsOf(s[1..]) ensures x in IdsOf(s) {
      var c :| c in s[1..] && c.id == x;
      assert c in s;
    }
  }

  /** Reordering keeps the set of ids. */
  lemma IdsOfPermutation(a: seq<Card>, b: seq<Card>)
    requires IsPermutation(a, b)
    ensures IdsOf(a) == IdsOf(b)
  {
    forall x | x in IdsOf(a) ensures x in IdsOf(b) {
      var c :| c in a && c.id == x;
      assert c in multiset(b) by { assert c in multiset(a); }
    }
    forall x | x in IdsOf(b) ensures x in IdsOf(a) {
      var c :| c in b && c.id == x;
      assert c in multiset(a) by { assert c in multiset(b); }
    }
  }

  /**
   * With unique ids, the unknown cards number the cards minus those whose
   * id is known.
   */
  lemma {:induction false} UnknownCount(s: seq<Card>, known: set<int>)
    requires UniqueIds(s)
    ensures |Unknown(s, known)| + |known * IdsOf(s)| == |s|
  {
    if s == [] {
      assert known * IdsOf(s) == {};
    } else {
      var t := s[1..];
      UniqueIdsTail(s);
      UnknownCount(t, known);
      IdsOfCons(s);
      assert s[0].id !in IdsOf(t) by {
        HeadIdNotInTail(s);
      }
      if s[0].id in known {
        assert known * IdsOf(s) == {s[0].id} + known * IdsOf(t);
      } else {
        assert known * IdsOf(s) == known * IdsOf(t);
      }
    }
  }
}
