/**
 Greedy field matching (internal/bundlegen/drift.go, matchCaseRenames and matchAmbiguousPairs): the
 shape both passes share. A removed field takes the first unused added field with its key.
 */
module Matching {
  import opened Json
  import opened Order
  import opened Collections

  datatype Pair = Pair(from: string, to: string)

  // What a pass compares: a normalised name (empty in the type-only pass) and a primitive type.
  datatype FieldKey = FieldKey(name: string, typ: string)

  // None takes no part in the pass.
  type KeyFn = string -> Option<FieldKey>

  function Froms(pairs: seq<Pair>): (r: seq<string>)
    ensures |r| == |pairs| && forall i :: 0 <= i < |pairs| ==> r[i] == pairs[i].from
  {
    seq(|pairs|, i requires 0 <= i < |pairs| => pairs[i].from)
  }

  function Tos(pairs: seq<Pair>): (r: seq<string>)
    ensures |r| == |pairs| && forall i :: 0 <= i < |pairs| ==> r[i] == pairs[i].to
  {
    seq(|pairs|, i requires 0 <= i < |pairs| => pairs[i].to)
  }

  function NotIn(t: seq<string>): string -> bool {
    (x: string) => x !in t
  }

  // s without the members of t, in order.
  function Without(s: seq<string>, t: seq<string>): seq<string> {
    Filter(NotIn(t), s)
  }

  lemma WithoutAppend(s: seq<string>, x: string, t: seq<string>)
    ensures Without(s + [x], t) == Without(s, t) + (if x in t then [] else [x])
  {
    FilterAppend(NotIn(t), s, x);
  }

  lemma WithoutMembers(s: seq<string>, t: seq<string>)
    ensures forall x :: x in Without(s, t) <==> x in s && x !in t
  {
    FilterMembers(NotIn(t), s);
  }

  lemma {:induction false} WithoutSame(s: seq<string>, t: seq<string>, t': seq<string>)
    requires forall x :: x in s ==> (x in t <==> x in t')
    ensures Without(s, t) == Without(s, t')
    decreases |s|
  {
    if s != [] { WithoutSame(s[1..], t, t'); }
  }

  lemma {:induction false} WithoutSorted(s: seq<string>, t: seq<string>)
    requires StrictlySorted(s)
    ensures StrictlySorted(Without(s, t))
    decreases |s|
  {
    if s != [] {
      WithoutSorted(s[1..], t);
      WithoutMembers(s[1..], t);
      var rest := Without(s[1..], t);
      forall i | 0 <= i < |rest| ensures Less(s[0], rest[i]) { assert rest[i] in rest; }
    }
  }

  // --- counting by key ---

  ghost function Count(s: seq<string>, key: KeyFn, k: FieldKey): nat {
    if s == [] then 0 else (if key(s[0]) == Some(k) then 1 else 0) + Count(s[1..], key, k)
  }

  ghost function CountIn(s: seq<string>, used: set<string>, key: KeyFn, k: FieldKey): nat {
    if s == [] then 0 else (if s[0] in used && key(s[0]) == Some(k) then 1 else 0) + CountIn(s[1..], used, key, k)
  }

  lemma {:induction false} CountAppend(s: seq<string>, x: string, key: KeyFn, k: FieldKey)
    ensures Count(s + [x], key, k) == Count(s, key, k) + if key(x) == Some(k) then 1 else 0
    decreases |s|
  {
    if s == [] {
      assert s + [x] == [x] && [x][1..] == [];
    } else {
      assert (s + [x])[1..] == s[1..] + [x] && (s + [x])[0] == s[0];
      CountAppend(s[1..], x, key, k);
    }
  }

  lemma {:induction false} CountInBound(s: seq<string>, used: set<string>, key: KeyFn, k: FieldKey)
    ensures CountIn(s, used, key, k) <= Count(s, key, k)
    ensures CountIn(s, used, key, k) == Count(s, key, k) <==> forall x :: x in s && key(x) == Some(k) ==> x in used
    decreases |s|
  {
    if s != [] {
      CountInBound(s[1..], used, key, k);
      assert s == [s[0]] + s[1..];
    }
  }

  lemma {:induction false} CountInEmpty(s: seq<string>, key: KeyFn, k: FieldKey)
    ensures CountIn(s, {}, key, k) == 0
    decreases |s|
  {
    if s != [] { CountInEmpty(s[1..], key, k); }
  }

  lemma {:induction false} CountInAdd(s: seq<string>, used: set<string>, a: string, key: KeyFn, k: FieldKey)
    requires StrictlySorted(s) && a !in used
    ensures CountIn(s, used + {a}, key, k) == CountIn(s, used, key, k) + if a in s && key(a) == Some(k) then 1 else 0
    decreases |s|
  {
    if s != [] {
      CountInAdd(s[1..], used, a, key, k);
      SortedDistinct(s);
      assert s == [s[0]] + s[1..];
      if s[0] == a { assert a !in s[1..]; }
    }
  }

  function Min(a: nat, b: nat): nat {
    if a < b then a else b
  }

  // --- the result of a pass ---

  ghost predicate PairsAgree(added: seq<string>, keyR: KeyFn, keyA: KeyFn, pairs: seq<Pair>) {
    forall i :: 0 <= i < |pairs| ==>
      pairs[i].to in added && keyR(pairs[i].from).Some? && keyR(pairs[i].from) == keyA(pairs[i].to)
  }

  // Different targets, in order per key.
  ghost predicate TargetsOrdered(keyR: KeyFn, pairs: seq<Pair>) {
    && (forall i, j :: 0 <= i < j < |pairs| ==> pairs[i].to != pairs[j].to)
    && (forall i, j :: 0 <= i < j < |pairs| && keyR(pairs[i].from) == keyR(pairs[j].from) ==>
        Less(pairs[i].to, pairs[j].to))
  }

  // Pairs agree on a key, use every name at most once, and leave exactly the rest, all in order.
  ghost predicate Matched(removed: seq<string>, added: seq<string>, keyR: KeyFn, keyA: KeyFn,
      pairs: seq<Pair>, leftR: seq<string>, leftA: seq<string>)
  {
    && PairsAgree(added, keyR, keyA, pairs) && TargetsOrdered(keyR, pairs)
    && Froms(pairs) == Without(removed, leftR) && leftR == Without(removed, Froms(pairs))
    && leftA == Without(added, Tos(pairs))
  }

  ghost predicate Greedy(added: seq<string>, keyA: KeyFn, used: set<string>) {
    forall a, b :: a in added && b in added && a in used && b !in used && keyA(a).Some? && keyA(a) == keyA(b) ==>
        Less(a, b)
  }

  // The scan for one removed field: the first unused added field with its key, "" when there is none
  // (or when it is the empty name, which the source cannot tell apart).
  method FirstUnused(added: seq<string>, used: set<string>, keyA: KeyFn, key: Option<FieldKey>)
      returns (matched: string)
    requires key.Some? && StrictlySorted(added)
    ensures matched != "" ==> matched in added && matched !in used && keyA(matched) == key
    ensures matched != "" ==> forall b :: b in added && b !in used && keyA(b) == key && b != matched ==>
            Less(matched, b)
    ensures matched == "" ==> Blocked(added, keyA, key.value) || forall b :: b in added && keyA(b) == key ==> b in used
  {
    for k := 0 to |added|
      invariant forall n :: 0 <= n < k ==> added[n] in used || keyA(added[n]) != key
    {
      if added[k] !in used && keyA(added[k]) == key {
        return added[k];
      }
    }
    return "";
  }

  lemma TakenLists(removed: seq<string>, pairs: seq<Pair>, leftR: seq<string>, r: string, a: string)
    requires Froms(pairs) == Without(removed, leftR) && leftR == Without(removed, Froms(pairs)) && r !in removed
    ensures Froms(pairs + [Pair(r, a)]) == Without(removed + [r], leftR)
    ensures leftR == Without(removed + [r], Froms(pairs + [Pair(r, a)]))
  {
    var more := pairs + [Pair(r, a)];
    assert Froms(more) == Froms(pairs) + [r];
    WithoutMembers(removed, Froms(pairs));
    WithoutAppend(removed, r, leftR);
    WithoutAppend(removed, r, Froms(more));
    WithoutSame(removed, Froms(pairs), Froms(more));
  }

  lemma TakenTargets(added: seq<string>, keyR: KeyFn, keyA: KeyFn, pairs: seq<Pair>, used: set<string>, r: string,
      a: string)
    requires TargetsOrdered(keyR, pairs) && (forall x :: x in used <==> x in Tos(pairs)) && Greedy(added, keyA, used)
    requires PairsAgree(added, keyR, keyA, pairs)
    requires a in added && a !in used && keyR(r).Some? && keyR(r) == keyA(a)
    ensures TargetsOrdered(keyR, pairs + [Pair(r, a)]) && PairsAgree(added, keyR, keyA, pairs + [Pair(r, a)])
  {
    var more := pairs + [Pair(r, a)];
    forall i | 0 <= i < |pairs| ensures pairs[i].to != a && (keyR(pairs[i].from) == keyR(r) ==> Less(pairs[i].to, a)) {
      assert Tos(pairs)[i] in Tos(pairs);
    }
  }

  lemma TakenGreedy(added: seq<string>, keyA: KeyFn, used: set<string>, a: string)
    requires Greedy(added, keyA, used) && a in added
    requires forall b :: b in added && b !in used && keyA(b) == keyA(a) && b != a ==> Less(a, b)
    ensures Greedy(added, keyA, used + {a})
  {
  }

  lemma Taken(removed: seq<string>, added: seq<string>, keyR: KeyFn, keyA: KeyFn, pairs: seq<Pair>, leftR: seq<string>,
      used: set<string>, r: string, a: string)
    requires Matched(removed, added, keyR, keyA, pairs, leftR, Without(added, Tos(pairs)))
    requires (forall x :: x in used <==> x in Tos(pairs)) && Greedy(added, keyA, used)
    requires r !in removed && a in added && a !in used && keyR(r).Some? && keyR(r) == keyA(a)
    requires forall b :: b in added && b !in used && keyA(b) == keyA(a) && b != a ==> Less(a, b)
    ensures Matched(removed + [r], added, keyR, keyA, pairs + [Pair(r, a)], leftR,
            Without(added, Tos(pairs + [Pair(r, a)])))
    ensures Tos(pairs + [Pair(r, a)]) == Tos(pairs) + [a]
    ensures Greedy(added, keyA, used + {a})
  {
    TakenLists(removed, pairs, leftR, r, a);
    TakenTargets(added, keyR, keyA, pairs, used, r, a);
    TakenGreedy(added, keyA, used, a);
    assert Tos(pairs + [Pair(r, a)]) == Tos(pairs) + [a];
  }

  lemma Skipped(removed: seq<string>, added: seq<string>, keyR: KeyFn, keyA: KeyFn, pairs: seq<Pair>,
      leftR: seq<string>,
      leftA: seq<string>, r: string)
    requires Matched(removed, added, keyR, keyA, pairs, leftR, leftA) && r !in removed
    ensures Matched(removed + [r], added, keyR, keyA, pairs, leftR + [r], leftA)
  {
    WithoutMembers(removed, leftR);
    WithoutAppend(removed, r, leftR + [r]);
    WithoutAppend(removed, r, Froms(pairs));
    WithoutSame(removed, leftR, leftR + [r]);
    forall x | x in Froms(pairs) ensures x in removed { assert x in Without(removed, leftR); }
  }

  // An added field with the empty name hides all others of its key: the scan stops at it, and its
  // name reads as "nothing found".
  predicate Blocked(added: seq<string>, keyA: KeyFn, k: FieldKey) {
    "" in added && keyA("") == Some(k)
  }

  // Exactly as many pairs per key as there can be, and none for a blocked key.
  ghost predicate Saturated(removed: seq<string>, added: seq<string>, keyR: KeyFn, keyA: KeyFn, pairs: seq<Pair>) {
    forall k :: Count(Froms(pairs), keyR, k) ==
      if Blocked(added, keyA, k) then 0 else Min(Count(removed, keyR, k), Count(added, keyA, k))
  }

  // `used` holds as many fields of each key as there are pairs with it.
  ghost predicate Tallied(added: seq<string>, keyR: KeyFn, keyA: KeyFn, pairs: seq<Pair>, used: set<string>) {
    forall k :: Count(Froms(pairs), keyR, k) == CountIn(added, used, keyA, k)
  }

  lemma TakenCounts(removed: seq<string>, added: seq<string>, keyR: KeyFn, keyA: KeyFn, pairs: seq<Pair>,
      used: set<string>, r: string, a: string)
    requires StrictlySorted(added) && a in added && a !in used && keyR(r) == keyA(a) && keyR(r).Some?
    requires Tallied(added, keyR, keyA, pairs, used) && !Blocked(added, keyA, keyA(a).value)
    ensures Tallied(added, keyR, keyA, pairs + [Pair(r, a)], used + {a})
    ensures Saturated(removed, added, keyR, keyA, pairs) ==>
            Saturated(removed + [r], added, keyR, keyA, pairs + [Pair(r, a)])
  {
    var more := pairs + [Pair(r, a)];
    assert Froms(more) == Froms(pairs) + [r];
    forall k ensures Count(Froms(more), keyR, k) == CountIn(added, used + {a}, keyA, k) {
      CountAppend(Froms(pairs), r, keyR, k);
      CountInAdd(added, used, a, keyA, k);
    }
    if Saturated(removed, added, keyR, keyA, pairs) {
      forall k | !Blocked(added, keyA, k)
        ensures Count(Froms(more), keyR, k) == Min(Count(removed + [r], keyR, k), Count(added, keyA, k))
      {
        CountAppend(Froms(pairs), r, keyR, k);
        CountAppend(removed, r, keyR, k);
        CountInBound(added, used, keyA, k);
      }
      forall k | Blocked(added, keyA, k) ensures Count(Froms(more), keyR, k) == 0 {
        CountAppend(Froms(pairs), r, keyR, k);
      }
    }
  }

  lemma SkippedCounts(removed: seq<string>, added: seq<string>, keyR: KeyFn, keyA: KeyFn, pairs: seq<Pair>,
      used: set<string>, r: string)
    requires Tallied(added, keyR, keyA, pairs, used) && Saturated(removed, added, keyR, keyA, pairs)
    requires keyR(r).None? || Blocked(added, keyA, keyR(r).value) || forall b :: b in added && keyA(b) == keyR(r) ==>
             b in used
    ensures Saturated(removed + [r], added, keyR, keyA, pairs)
  {
    forall k | !Blocked(added, keyA, k)
      ensures Count(Froms(pairs), keyR, k) == Min(Count(removed + [r], keyR, k), Count(added, keyA, k))
    {
      CountAppend(removed, r, keyR, k);
      CountInBound(added, used, keyA, k);
    }
  }

  // The pass so far: the first part of `removed` is matched as well as it can be.
  ghost predicate PassState(removed: seq<string>, added: seq<string>, keyR: KeyFn, keyA: KeyFn,
      pairs: seq<Pair>, leftR: seq<string>, used: set<string>)
  {
    && Matched(removed, added, keyR, keyA, pairs, leftR, Without(added, Tos(pairs)))
    && (forall x :: x in used <==> x in Tos(pairs)) && "" !in used && Greedy(added, keyA, used)
    && Tallied(added, keyR, keyA, pairs, used)
    && Saturated(removed, added, keyR, keyA, pairs)
  }

  lemma PassStarts(added: seq<string>, keyR: KeyFn, keyA: KeyFn)
    ensures PassState([], added, keyR, keyA, [], [], {})
  {
    forall k ensures CountIn(added, {}, keyA, k) == 0 { CountInEmpty(added, keyA, k); }
    assert Froms([]) == [] && Tos([]) == [];
  }

  lemma PassSkips(removed: seq<string>, added: seq<string>, keyR: KeyFn, keyA: KeyFn,
      pairs: seq<Pair>, leftR: seq<string>, used: set<string>, r: string)
    requires PassState(removed, added, keyR, keyA, pairs, leftR, used) && r !in removed
    requires keyR(r).None? || Blocked(added, keyA, keyR(r).value) || forall b :: b in added && keyA(b) == keyR(r) ==>
             b in used
    ensures PassState(removed + [r], added, keyR, keyA, pairs, leftR + [r], used)
  {
    Skipped(removed, added, keyR, keyA, pairs, leftR, Without(added, Tos(pairs)), r);
    SkippedCounts(removed, added, keyR, keyA, pairs, used, r);
  }

  lemma PassTakes(removed: seq<string>, added: seq<string>, keyR: KeyFn, keyA: KeyFn,
      pairs: seq<Pair>, leftR: seq<string>, used: set<string>, r: string, a: string)
    requires StrictlySorted(added) && PassState(removed, added, keyR, keyA, pairs, leftR, used) && r !in removed
    requires a != "" && a in added && a !in used && keyR(r).Some? && keyR(r) == keyA(a)
    requires forall b :: b in added && b !in used && keyA(b) == keyA(a) && b != a ==> Less(a, b)
    ensures PassState(removed + [r], added, keyR, keyA, pairs + [Pair(r, a)], leftR, used + {a})
  {
    Taken(removed, added, keyR, keyA, pairs, leftR, used, r, a);
    TakenCounts(removed, added, keyR, keyA, pairs, used, r, a);
  }

  // The added fields no pair used, in order.
  method Leftover(added: seq<string>, used: set<string>, ghost tos: seq<string>) returns (left: seq<string>)
    requires forall x :: x in used <==> x in tos
    ensures left == Without(added, tos)
  {
    left := [];
    for i := 0 to |added|
      invariant left == Without(added[..i], tos)
    {
      assert added[..i + 1] == added[..i] + [added[i]];
      WithoutAppend(added[..i], added[i], tos);
      if added[i] !in used {
        left := left + [added[i]];
      }
    }
    assert added[..|added|] == added;
  }

  // One pass.
  method MatchByKey(removed: seq<string>, added: seq<string>, keyR: KeyFn, keyA: KeyFn)
    returns (pairs: seq<Pair>, leftR: seq<string>, leftA: seq<string>)
    requires StrictlySorted(removed) && StrictlySorted(added)
    ensures Matched(removed, added, keyR, keyA, pairs, leftR, leftA)
    ensures Saturated(removed, added, keyR, keyA, pairs)
  {
    pairs, leftR := [], [];
    var used: set<string> := {};
    SortedDistinct(removed);
    PassStarts(added, keyR, keyA);
    for i := 0 to |removed|
      invariant PassState(removed[..i], added, keyR, keyA, pairs, leftR, used)
    {
      var r := removed[i];
      assert removed[..i + 1] == removed[..i] + [r] && r !in removed[..i];
      var matched := "";
      if keyR(r).Some? {
        matched := FirstUnused(added, used, keyA, keyR(r));
      }
      if matched == "" {
        PassSkips(removed[..i], added, keyR, keyA, pairs, leftR, used, r);
        leftR := leftR + [r];
      } else {
        PassTakes(removed[..i], added, keyR, keyA, pairs, leftR, used, r, matched);
        pairs := pairs + [Pair(r, matched)];
        used := used + {matched};
      }
    }
    assert removed[..|removed|] == removed;
    leftA := Leftover(added, used, Tos(pairs));
  }

  // --- maximality ---

  // Any one-to-one matching of removed with added fields by key.
  ghost predicate IsMatching(removed: seq<string>, added: seq<string>, keyR: KeyFn, keyA: KeyFn, m: seq<Pair>) {
    && (forall i :: 0 <= i < |m| ==>
        m[i].from in removed && m[i].to in added && keyR(m[i].from).Some? && keyR(m[i].from) == keyA(m[i].to))
    && (forall i, j :: 0 <= i < j < |m| ==> m[i].from != m[j].from && m[i].to != m[j].to)
  }

  lemma {:induction false} DistinctCount(s: seq<string>, within: seq<string>, key: KeyFn, k: FieldKey)
    requires forall i, j :: 0 <= i < j < |s| ==> s[i] != s[j]
    requires StrictlySorted(within) && forall x :: x in s ==> x in within
    ensures Count(s, key, k) <= Count(within, key, k)
  {
    var used := set x | x in s;
    CountInIsCount(s, within, key, k);
    CountInBound(within, used, key, k);
  }

  lemma {:induction false} CountInIsCount(s: seq<string>, within: seq<string>, key: KeyFn, k: FieldKey)
    requires forall i, j :: 0 <= i < j < |s| ==> s[i] != s[j]
    requires StrictlySorted(within) && forall x :: x in s ==> x in within
    ensures CountIn(within, (set x | x in s), key, k) == Count(s, key, k)
    decreases |s|
  {
    if s == [] {
      CountInEmpty(within, key, k);
      assert (set x | x in s) == {};
    } else {
      var rest := s[1..];
      CountInIsCount(rest, within, key, k);
      assert s == [s[0]] + rest && s[0] in s;
      assert (set x | x in s) == (set x | x in rest) + {s[0]};
      CountInAdd(within, (set x | x in rest), s[0], key, k);
    }
  }

  lemma {:induction false} CountRemoved(s: seq<string>, j: nat, key: KeyFn, k: FieldKey)
    requires j < |s|
    ensures Count(s, key, k) == Count(s[..j] + s[j + 1..], key, k) + if key(s[j]) == Some(k) then 1 else 0
    decreases |s|
  {
    var t := s[..j] + s[j + 1..];
    if j == 0 {
      assert t == s[1..];
    } else {
      CountRemoved(s[1..], j - 1, key, k);
      assert t[0] == s[0] && t[1..] == s[1..][..j - 1] + s[1..][j..];
    }
  }

  lemma {:induction false} CountPositive(s: seq<string>, key: KeyFn, k: FieldKey) returns (j: nat)
    requires Count(s, key, k) > 0
    ensures j < |s| && key(s[j]) == Some(k) && s[j] in s
    decreases |s|
  {
    if key(s[0]) == Some(k) {
      j := 0;
    } else {
      var n := CountPositive(s[1..], key, k);
      j := n + 1;
    }
  }

  lemma {:induction false} SmallerByKeys(s: seq<string>, t: seq<string>, key: KeyFn)
    requires forall i :: 0 <= i < |s| ==> key(s[i]).Some?
    requires forall k :: Count(s, key, k) <= Count(t, key, k)
    ensures |s| <= |t|
    decreases |s|
  {
    if s != [] {
      var k0 := key(s[0]).value;
      var j := CountPositive(t, key, k0);
      var t' := t[..j] + t[j + 1..];
      forall k ensures Count(s[1..], key, k) <= Count(t', key, k) { CountRemoved(t, j, key, k); }
      SmallerByKeys(s[1..], t', key);
    }
  }

  // A removed field has the key of an added field with the empty name.
  ghost predicate EmptyNameHides(removed: seq<string>, added: seq<string>, keyR: KeyFn, keyA: KeyFn) {
    "" in added && keyA("").Some? && exists r :: r in removed && keyR(r) == keyA("")
  }

  // Otherwise a saturated pass is a maximum: no one-to-one matching has more pairs.
  lemma SaturatedIsMaximum(removed: seq<string>, added: seq<string>, keyR: KeyFn, keyA: KeyFn,
      pairs: seq<Pair>, other: seq<Pair>)
    requires StrictlySorted(removed) && StrictlySorted(added)
    requires Saturated(removed, added, keyR, keyA, pairs) && IsMatching(removed, added, keyR, keyA, other)
    requires !EmptyNameHides(removed, added, keyR, keyA)
    ensures |other| <= |pairs|
  {
    forall k ensures Count(Froms(other), keyR, k) <= Count(Froms(pairs), keyR, k) {
      DistinctCount(Froms(other), removed, keyR, k);
      DistinctCount(Tos(other), added, keyA, k);
      SameCounts(other, keyR, keyA, k);
      if Blocked(added, keyA, k) { NoneRemoved(removed, added, keyR, keyA, k); }
    }
    SmallerByKeys(Froms(other), Froms(pairs), keyR);
  }

  lemma NoneRemoved(removed: seq<string>, added: seq<string>, keyR: KeyFn, keyA: KeyFn, k: FieldKey)
    requires Blocked(added, keyA, k) && !EmptyNameHides(removed, added, keyR, keyA)
    ensures Count(removed, keyR, k) == 0
  {
    if Count(removed, keyR, k) > 0 {
      var j := CountPositive(removed, keyR, k);
    }
  }

  lemma {:induction false} CountMember(s: seq<string>, key: KeyFn, k: FieldKey, x: string)
    requires x in s && key(x) == Some(k)
    ensures Count(s, key, k) > 0
    decreases |s|
  {
    assert s == [s[0]] + s[1..];
    if x != s[0] { CountMember(s[1..], key, k, x); }
  }

  lemma FirstCounts(pairs: seq<Pair>, key: KeyFn, k: FieldKey)
    requires pairs != [] ==> key(pairs[0].from) == Some(k)
    ensures pairs == [] || Count(Froms(pairs), key, k) > 0
  {
    if pairs != [] {
      assert Froms(pairs)[0] == pairs[0].from;
      CountMember(Froms(pairs), key, k, pairs[0].from);
    }
  }

  // The pass is a maximum exactly when the empty name hides nothing from it.
  lemma MaximumExactly(removed: seq<string>, added: seq<string>, keyR: KeyFn, keyA: KeyFn,
      pairs: seq<Pair>, leftR: seq<string>, leftA: seq<string>)
    requires StrictlySorted(removed) && StrictlySorted(added)
    requires Matched(removed, added, keyR, keyA, pairs, leftR, leftA) && Saturated(removed, added, keyR, keyA, pairs)
    ensures (forall other :: IsMatching(removed, added, keyR, keyA, other) ==> |other| <= |pairs|) <==>
            !EmptyNameHides(removed, added, keyR, keyA)
  {
    if EmptyNameHides(removed, added, keyR, keyA) {
      var r :| r in removed && keyR(r) == keyA("");
      LargerMatching(removed, added, keyR, keyA, pairs, leftR, leftA, r);
      assert |pairs + [Pair(r, "")]| > |pairs|;
    } else {
      forall other | IsMatching(removed, added, keyR, keyA, other) ensures |other| <= |pairs| {
        SaturatedIsMaximum(removed, added, keyR, keyA, pairs, other);
      }
    }
  }

  // One pair more: the field the pass could not place, with the empty name.
  lemma LargerMatching(removed: seq<string>, added: seq<string>, keyR: KeyFn, keyA: KeyFn,
      pairs: seq<Pair>, leftR: seq<string>, leftA: seq<string>, r: string)
    requires StrictlySorted(removed)
    requires Matched(removed, added, keyR, keyA, pairs, leftR, leftA) && Saturated(removed, added, keyR, keyA, pairs)
    requires r in removed && "" in added && keyA("").Some? && keyR(r) == keyA("")
    ensures IsMatching(removed, added, keyR, keyA, pairs + [Pair(r, "")])
  {
    var k := keyA("").value;
    WithoutMembers(removed, leftR);
    WithoutSorted(removed, leftR);
    SortedDistinct(Froms(pairs));
    assert Count(Froms(pairs), keyR, k) == 0;
    forall i | 0 <= i < |pairs| ensures pairs[i].from in removed && pairs[i].from != r && pairs[i].to != "" {
      assert Froms(pairs)[i] in Froms(pairs);
      if keyR(pairs[i].from) == Some(k) { CountMember(Froms(pairs), keyR, k, pairs[i].from); }
    }
    forall i, j | 0 <= i < j < |pairs| ensures pairs[i].from != pairs[j].from {
      assert Froms(pairs)[i] != Froms(pairs)[j];
    }
  }

  lemma {:induction false} SameCounts(m: seq<Pair>, keyR: KeyFn, keyA: KeyFn, k: FieldKey)
    requires forall i :: 0 <= i < |m| ==> keyR(m[i].from) == keyA(m[i].to)
    ensures Count(Froms(m), keyR, k) == Count(Tos(m), keyA, k)
    decreases |m|
  {
    if m != [] {
      assert Froms(m)[1..] == Froms(m[1..]) && Tos(m)[1..] == Tos(m[1..]);
      SameCounts(m[1..], keyR, keyA, k);
    }
  }

  // What a pass leaves over cannot be paired.
  lemma NothingLeftToPair(removed: seq<string>, added: seq<string>, keyR: KeyFn, keyA: KeyFn,
      pairs: seq<Pair>, leftR: seq<string>, leftA: seq<string>, r: string, a: string)
    requires StrictlySorted(removed) && StrictlySorted(added)
    requires Matched(removed, added, keyR, keyA, pairs, leftR, leftA) && Saturated(removed, added, keyR, keyA, pairs)
    requires !EmptyNameHides(removed, added, keyR, keyA) && r in leftR && a in leftA && keyR(r).Some?
    ensures keyR(r) != keyA(a)
  {
    if keyR(r) == keyA(a) {
      OnePairMore(removed, added, keyR, keyA, pairs, leftR, leftA, r, a);
      SaturatedIsMaximum(removed, added, keyR, keyA, pairs, pairs + [Pair(r, a)]);
    }
  }

  lemma OnePairMore(removed: seq<string>, added: seq<string>, keyR: KeyFn, keyA: KeyFn,
      pairs: seq<Pair>, leftR: seq<string>, leftA: seq<string>, r: string, a: string)
    requires StrictlySorted(removed) && Matched(removed, added, keyR, keyA, pairs, leftR, leftA)
    requires r in leftR && a in leftA && keyR(r).Some? && keyR(r) == keyA(a)
    ensures IsMatching(removed, added, keyR, keyA, pairs + [Pair(r, a)])
  {
    WithoutMembers(removed, leftR);
    WithoutMembers(removed, Froms(pairs));
    WithoutMembers(added, Tos(pairs));
    WithoutSorted(removed, leftR);
    SortedDistinct(Froms(pairs));
    forall i | 0 <= i < |pairs| ensures pairs[i].from in removed && pairs[i].from != r && pairs[i].to != a {
      assert Froms(pairs)[i] in Froms(pairs) && Tos(pairs)[i] in Tos(pairs);
    }
    forall i, j | 0 <= i < j < |pairs| ensures pairs[i].from != pairs[j].from {
      assert Froms(pairs)[i] != Froms(pairs)[j];
    }
  }
}
