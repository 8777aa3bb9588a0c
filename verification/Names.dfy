/**
 Collision-free identifiers (internal/bundlegen/bundlegen.go): OpenAPI keys and component names to
 legal, pairwise distinct proto identifiers.
 */
module Names {
  import opened Collections

  predicate Digit(c: char) {
    '0' <= c <= '9'
  }

  predicate IdentChar(c: char) {
    'A' <= c <= 'Z' || 'a' <= c <= 'z' || Digit(c) || c == '_'
  }

  // [A-Za-z_][A-Za-z0-9_]*
  predicate Legal(s: string) {
    s != "" && !Digit(s[0]) && forall i | 0 <= i < |s| :: IdentChar(s[i])
  }

  function ReplaceIllegal(s: string): (r: string)
    ensures |r| == |s| && forall i :: 0 <= i < |s| ==> r[i] == if IdentChar(s[i]) then s[i] else '_'
  {
    if s == "" then "" else [if IdentChar(s[0]) then s[0] else '_'] + ReplaceIllegal(s[1..])
  }

  function SanitizeIdent(s: string): (r: string)
    ensures Legal(r)
    ensures Legal(s) ==> r == s
  {
    var out := ReplaceIllegal(s);
    if out == "" then "_"
    else if Digit(out[0]) then "_" + out
    else out
  }

  // The identifier, character by character: an illegal one is replaced, and an underscore put before a
  // leading digit or in the place of nothing.
  lemma SanitizeExactly(s: string)
    ensures var r := SanitizeIdent(s);
            var off := if s == "" || Digit(s[0]) then 1 else 0;
            && |r| == |s| + off && (off == 1 ==> r[0] == '_')
            && forall i :: 0 <= i < |s| ==> r[i + off] == if IdentChar(s[i]) then s[i] else '_'
  {
  }

  // strconv.Itoa on the naturals.
  function Itoa(n: nat): (r: string)
    ensures r != "" && forall i :: 0 <= i < |r| ==> Digit(r[i])
  {
    if n < 10 then ['0' + n as char] else Itoa(n / 10) + ['0' + (n % 10) as char]
  }

  function Value(s: string): int {
    if s == "" then 0 else 10 * Value(s[..|s| - 1]) + (s[|s| - 1] as int - '0' as int)
  }

  lemma {:induction false} ItoaValue(n: nat)
    ensures Value(Itoa(n)) == n
    decreases n
  {
    var s := Itoa(n);
    if n < 10 {
      assert s[..0] == "";
    } else {
      ItoaValue(n / 10);
      assert s[..|s| - 1] == Itoa(n / 10);
    }
  }

  // The decimal text is the only string of digits with that value and no leading zero.
  lemma {:induction false} ItoaExactly(n: nat, s: string)
    ensures s == Itoa(n) <==>
              s != "" && (forall i :: 0 <= i < |s| ==> Digit(s[i])) && (|s| > 1 ==> s[0] != '0') && Value(s) == n
    decreases n, |s|
  {
    ItoaValue(n);
    ItoaLeads(n);
    if s != "" && (forall i :: 0 <= i < |s| ==> Digit(s[i])) && (|s| > 1 ==> s[0] != '0') && Value(s) == n {
      var front, last := s[..|s| - 1], s[|s| - 1];
      ValueOfDigits(front);
      assert n == 10 * Value(front) + (last as int - '0' as int);
      if |s| == 1 {
        assert n < 10 && s == [last];
      } else {
        LeadingPositive(front);
        ItoaExactly(n / 10, front);
        assert s == front + [last];
      }
    }
  }

  lemma {:induction false} ItoaLeads(n: nat)
    ensures |Itoa(n)| > 1 ==> Itoa(n)[0] != '0'
    ensures n > 0 ==> Itoa(n)[0] != '0'
    decreases n
  {
    if n >= 10 { ItoaLeads(n / 10); }
  }

  lemma {:induction false} ValueOfDigits(s: string)
    requires forall i :: 0 <= i < |s| ==> Digit(s[i])
    ensures Value(s) >= 0
    decreases |s|
  {
    if s != "" { ValueOfDigits(s[..|s| - 1]); }
  }

  lemma {:induction false} LeadingPositive(s: string)
    requires s != "" && s[0] != '0' && forall i :: 0 <= i < |s| ==> Digit(s[i])
    ensures Value(s) > 0
    decreases |s|
  {
    if |s| == 1 { assert Value(s[..0]) == 0; } else { LeadingPositive(s[..|s| - 1]); }
  }

  // The names tried for a base, in order: the base itself, base_2, base_3, ...
  function Candidate(base: string, i: nat): string
    requires i >= 1
  {
    if i == 1 then base else base + "_" + Itoa(i)
  }

  lemma CandidateReads(base: string)
    ensures Candidate(base, 1) == base && Candidate(base, 2) == base + "_2" && Candidate(base, 10) == base + "_10"
  {
    ItoaExactly(2, "2");
    ItoaExactly(10, "10");
    assert Value("1") == 10 * Value("") + 1 && "10"[..1] == "1";
    assert Value("10") == 10 * Value("10"[..1]) + 0;
  }

  lemma CandidatesDistinct(base: string, i: nat, j: nat)
    requires i >= 1 && j >= 1 && Candidate(base, i) == Candidate(base, j)
    ensures i == j
  {
    if i > 1 && j > 1 {
      assert Candidate(base, i)[|base| + 1..] == Itoa(i);
      assert Candidate(base, j)[|base| + 1..] == Itoa(j);
      ItoaValue(i);
      ItoaValue(j);
    }
  }

  lemma CandidateLegal(base: string, i: nat)
    requires Legal(base) && i >= 1
    ensures Legal(Candidate(base, i))
  {
  }

  ghost function Tried(base: string, i: nat): set<string>
    requires i >= 1
  {
    set k | 1 <= k < i :: Candidate(base, k)
  }

  // Pigeonhole: i - 1 taken candidates are i - 1 different names.
  lemma {:induction false} TriedCount(base: string, i: nat)
    requires i >= 1
    ensures |Tried(base, i)| == i - 1
    decreases i
  {
    if i > 1 {
      TriedCount(base, i - 1);
      assert Tried(base, i) == Tried(base, i - 1) + {Candidate(base, i - 1)};
      if Candidate(base, i - 1) in Tried(base, i - 1) {
        var k :| 1 <= k < i - 1 && Candidate(base, k) == Candidate(base, i - 1);
        CandidatesDistinct(base, k, i - 1);
      }
    } else {
      assert Tried(base, 1) == {};
    }
  }

  lemma TriesBounded(base: string, used: set<string>, i: nat)
    requires i >= 1 && forall k :: 1 <= k < i ==> Candidate(base, k) in used
    ensures i <= |used| + 1
  {
    TriedCount(base, i);
    SubsetSize(Tried(base, i), used);
  }

  // `name` is the first free candidate.
  ghost predicate IsUnique(raw: string, used: set<string>, name: string) {
    exists i :: 1 <= i <= |used| + 1 && FirstFreeAt(SanitizeIdent(raw), used, i)
        && name == Candidate(SanitizeIdent(raw), i)
  }

  ghost predicate FirstFreeAt(base: string, used: set<string>, i: nat) {
    i >= 1 && Candidate(base, i) !in used && forall k :: 1 <= k < i ==> Candidate(base, k) in used
  }

  // The identifiers of one scope; every call records what it returned.
  class Scope {
    var used: set<string>

    constructor ()
      ensures used == {}
    {
      used := {};
    }

    // Terminates within |used| + 1 tries and returns the first free candidate.
    method UniqueIdent(raw: string) returns (name: string)
      modifies this
      ensures IsUnique(raw, old(used), name)
      ensures Legal(name) && name !in old(used) && used == old(used) + {name}
      ensures Legal(raw) && raw !in old(used) ==> name == raw
    {
      var base := SanitizeIdent(raw);
      name := base;
      var i := 2;
      while name in used
        invariant used == old(used)
        invariant i >= 2 && name == Candidate(base, i - 1)
        invariant forall k :: 1 <= k < i - 1 ==> Candidate(base, k) in used
        invariant i - 1 <= |used| + 1
        decreases |used| + 2 - i
      {
        TriesBounded(base, used, i);
        name := base + "_" + Itoa(i);
        i := i + 1;
      }
      TriesBounded(base, used, i - 1);
      assert FirstFreeAt(base, used, i - 1);
      CandidateLegal(base, i - 1);
      used := used + {name};
    }
  }

  // What the assignment over a whole list guarantees.
  ghost predicate Assigned(names: seq<string>, m: map<string, string>) {
    && (forall x :: x in m <==> x in names)
    && (forall x :: x in m ==> Legal(m[x]))
    && (forall x, y :: x in m && y in m && m[x] == m[y] ==> x == y)
  }

  lemma AssignedExtends(names: seq<string>, m: map<string, string>, n: string, name: string)
    requires Assigned(names, m) && n !in m && Legal(name) && name !in m.Values
    ensures Assigned(names + [n], m[n := name]) && m[n := name].Values == m.Values + {name}
  {
    var all := m[n := name];
    forall x | x in m ensures all[x] in m.Values { assert m[x] in m.Values; }
    forall v | v in m.Values + {name} ensures v in all.Values {
      if v == name {
        assert n in all;
      } else {
        var x :| x in m && m[x] == v;
        assert x in all;
      }
    }
  }

  // The identifiers given to the first k names.
  ghost function GivenBefore(names: seq<string>, m: map<string, string>, k: nat): set<string>
    requires k <= |names|
  {
    set j | 0 <= j < k && names[j] in m :: m[names[j]]
  }

  // The k-th name got the first candidate that was free when its turn came.
  ghost predicate GetsFirstFree(names: seq<string>, m: map<string, string>, k: nat) {
    k < |names| && names[k] in m && IsUnique(names[k], GivenBefore(names, m, k), m[names[k]])
  }

  ghost predicate InTurn(names: seq<string>, m: map<string, string>) {
    forall k :: 0 <= k < |names| ==> GetsFirstFree(names, m, k)
  }

  lemma InTurnExtends(names: seq<string>, m: map<string, string>, n: string, name: string)
    requires Assigned(names, m) && InTurn(names, m) && n !in m
    requires GetsFirstFree(names + [n], m[n := name], |names|)
    ensures InTurn(names + [n], m[n := name])
  {
    var longer, all := names + [n], m[n := name];
    forall k | 0 <= k < |names| ensures GetsFirstFree(longer, all, k) { TurnKept(names, m, n, name, k); }
  }

  lemma LastTurn(names: seq<string>, m: map<string, string>, n: string, name: string)
    requires Assigned(names, m) && n !in m && IsUnique(n, m.Values, name)
    ensures GetsFirstFree(names + [n], m[n := name], |names|)
  {
    GivenToAll(names, m);
    GivenStays(names, m, n, name, |names|);
  }

  lemma TurnKept(names: seq<string>, m: map<string, string>, n: string, name: string, k: nat)
    requires Assigned(names, m) && n !in m && GetsFirstFree(names, m, k)
    ensures GetsFirstFree(names + [n], m[n := name], k)
  {
    GivenStays(names, m, n, name, k);
    assert (names + [n])[k] == names[k];
  }

  lemma GivenStays(names: seq<string>, m: map<string, string>, n: string, name: string, k: nat)
    requires Assigned(names, m) && n !in m && k <= |names|
    ensures GivenBefore(names + [n], m[n := name], k) == GivenBefore(names, m, k)
  {
    var longer, all := names + [n], m[n := name];
    forall j | 0 <= j < k ensures longer[j] == names[j] && names[j] in m && all[names[j]] == m[names[j]] {
      assert names[j] in names;
    }
  }

  lemma GivenToAll(names: seq<string>, m: map<string, string>)
    requires Assigned(names, m)
    ensures GivenBefore(names, m, |names|) == m.Values
  {
    forall v | v in m.Values ensures v in GivenBefore(names, m, |names|) {
      var x :| x in m && m[x] == v;
      assert x in names;
      var j :| 0 <= j < |names| && names[j] == x;
    }
  }

  ghost predicate NamedInTurn(names: seq<string>, m: map<string, string>) {
    Assigned(names, m) && InTurn(names, m)
  }

  lemma OneMoreNamed(names: seq<string>, m: map<string, string>, n: string, name: string)
    requires NamedInTurn(names, m) && n !in names && IsUnique(n, m.Values, name) && Legal(name) && name !in m.Values
    ensures n !in m && NamedInTurn(names + [n], m[n := name]) && m[n := name].Values == m.Values + {name}
  {
    AssignedExtends(names, m, n, name);
    LastTurn(names, m, n, name);
    InTurnExtends(names, m, n, name);
  }

  // A legal name keeps its spelling exactly when no earlier name was given it.
  lemma KeepsSpellingExactly(names: seq<string>, m: map<string, string>, k: nat)
    requires InTurn(names, m) && k < |names| && Legal(names[k])
    ensures forall j :: 0 <= j <= k ==> names[j] in m
    ensures m[names[k]] == names[k] <==> forall j :: 0 <= j < k ==> m[names[j]] != names[k]
  {
    forall j | 0 <= j <= k ensures names[j] in m { assert GetsFirstFree(names, m, j); }
    assert GetsFirstFree(names, m, k);
    var used, raw := GivenBefore(names, m, k), names[k];
    var i :| 1 <= i <= |used| + 1 && FirstFreeAt(SanitizeIdent(raw), used, i)
      && m[raw] == Candidate(SanitizeIdent(raw), i);
    assert SanitizeIdent(raw) == raw && Candidate(raw, 1) == raw;
  }

  // One identifier per name: legal, one-to-one, and the name itself when all names are legal.
  method SanitizeMessageNames(names: seq<string>) returns (m: map<string, string>)
    requires forall i, j :: 0 <= i < j < |names| ==> names[i] != names[j]
    ensures NamedInTurn(names, m)
    ensures (forall x :: x in names ==> Legal(x)) ==> forall x :: x in names ==> m[x] == x
  {
    var scope := new Scope();
    m := map[];
    for k := 0 to |names|
      invariant NamedInTurn(names[..k], m)
      invariant fresh(scope) && scope.used == m.Values
      invariant (forall x :: x in names ==> Legal(x)) ==> forall x :: x in m ==> m[x] == x
    {
      var n := names[k];
      assert names[..k + 1] == names[..k] + [n];
      assert n !in names[..k];
      var name := scope.UniqueIdent(n);
      OneMoreNamed(names[..k], m, n, name);
      m := m[n := name];
    }
    assert names[..|names|] == names;
  }

  // A legal name is not safe from an illegal neighbour: "a-b" sorts first and takes "a_b".
  lemma LegalNameDisplaced()
    ensures IsUnique("a-b", {}, "a_b") && IsUnique("a_b", {"a_b"}, "a_b_2")
  {
    assert ReplaceIllegal("b") == "b" && ReplaceIllegal("-b") == "_b" && ReplaceIllegal("a-b") == "a_b";
    assert SanitizeIdent("a-b") == "a_b" && SanitizeIdent("a_b") == "a_b";
    assert FirstFreeAt("a_b", {}, 1);
    assert Itoa(2) == "2" && Candidate("a_b", 2) == "a_b_2" && Candidate("a_b", 1) == "a_b";
    assert FirstFreeAt("a_b", {"a_b"}, 2);
    assert |{"a_b"}| == 1;
  }
}
