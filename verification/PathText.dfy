/**
 The text form of paths (internal/transform/path.go): ParsePath and Path.String are inverse.
 */
module PathText {
  import opened Json
  import opened Transform

  // strings.Split(s, ".")
  function Split(s: string): (parts: seq<string>)
    ensures |parts| >= 1
  {
    if s == "" then [""]
    else
      var rest := Split(s[1..]);
      if s[0] == '.' then [""] + rest else [[s[0]] + rest[0]] + rest[1..]
  }

  // strings.Join(parts, ".")
  function Join(parts: seq<string>): string {
    if parts == [] then ""
    else if |parts| == 1 then parts[0]
    else parts[0] + "." + Join(parts[1..])
  }

  lemma {:induction false} JoinSplit(s: string)
    ensures Join(Split(s)) == s
    ensures forall i :: 0 <= i < |Split(s)| ==> '.' !in Split(s)[i]
    decreases |s|
  {
    if s != "" {
      JoinSplit(s[1..]);
      var rest := Split(s[1..]);
      if s[0] == '.' {
        assert Split(s)[1..] == rest;
      } else {
        assert Split(s)[1..] == rest[1..];
      }
      assert [s[0]] + s[1..] == s;
    }
  }

  lemma {:induction false} SplitPlain(s: string)
    requires '.' !in s
    ensures Split(s) == [s]
    decreases |s|
  {
    if s != "" {
      SplitPlain(s[1..]);
      assert [s[0]] + s[1..] == s;
    }
  }

  lemma {:induction false} SplitAtDot(a: string, b: string)
    requires '.' !in a
    ensures Split(a + "." + b) == [a] + Split(b)
    decreases |a|
  {
    var s := a + "." + b;
    if a == "" {
      assert s[1..] == b;
    } else {
      assert s[1..] == a[1..] + "." + b;
      SplitAtDot(a[1..], b);
      assert [a[0]] + a[1..] == a;
    }
  }

  lemma {:induction false} SplitJoin(parts: seq<string>)
    requires parts != [] && forall i :: 0 <= i < |parts| ==> '.' !in parts[i]
    ensures Split(Join(parts)) == parts
    decreases |parts|
  {
    if |parts| == 1 {
      SplitPlain(parts[0]);
    } else {
      SplitAtDot(parts[0], Join(parts[1..]));
      SplitJoin(parts[1..]);
    }
  }

  // --- the grammar ---

  predicate LegalName(name: string) {
    name != "" && '.' !in name && '[' !in name && ']' !in name
  }

  predicate WellFormedPath(p: Path) {
    && p != []
    && (forall i | 0 <= i < |p| :: LegalName(p[i].name))
    && !p[|p| - 1].isArray
  }

  function SegmentText(s: Segment): string {
    if s.isArray then s.name + "[]" else s.name
  }

  function Texts(p: Path): seq<string> {
    seq(|p|, i requires 0 <= i < |p| => SegmentText(p[i]))
  }

  function Print(p: Path): string {
    Join(Texts(p))
  }

  // The text of a path, character by character: its names with "[]" after an iterating one, and a dot
  // between two of them.
  lemma PrintReads(p: Path, s: Segment)
    ensures Print([s]) == s.name + if s.isArray then "[]" else ""
    ensures p != [] ==> Print([s] + p) == s.name + (if s.isArray then "[]" else "") + "." + Print(p)
  {
    assert Texts([s]) == [SegmentText(s)];
    if p != [] { assert Texts([s] + p)[1..] == Texts(p); }
  }

  // What the grammar allows at place i of a text: a dot between two names or after "[]", a '[' after a
  // name and before "].", a ']' after '[', and any other character.
  predicate AllowedAt(s: string, i: int)
    requires 0 <= i < |s|
  {
    match s[i]
    case '.' => 0 < i < |s| - 1 && s[i - 1] != '.'
    case '[' => 0 < i < |s| - 2 && s[i - 1] != '.' && s[i + 1] == ']' && s[i + 2] == '.'
    case ']' => 0 < i && s[i - 1] == '['
    case _ => true
  }

  predicate Grammatical(s: string) {
    s != "" && forall i | 0 <= i < |s| :: AllowedAt(s, i)
  }

  // A text before a dot is a segment's, and the rest a path's.
  lemma GrammaticalMore(p: Path, s: Segment)
    requires LegalName(s.name) && Grammatical(Print(p))
    ensures Grammatical(SegmentText(s) + "." + Print(p))
  {
    var head, rest := SegmentText(s), Print(p);
    var all := head + "." + rest;
    forall i | 0 <= i < |all| ensures AllowedAt(all, i) {
      if i > |head| {
        assert all[i] == rest[i - |head| - 1] && AllowedAt(rest, i - |head| - 1);
      } else if i < |s.name| {
        assert all[i] == s.name[i] && s.name[i] in s.name;
      } else {
        assert all[i - 1] == head[i - 1] && all[|s.name| - 1] == s.name[|s.name| - 1];
        assert s.name[|s.name| - 1] in s.name;
      }
    }
  }

  lemma {:induction false} PathGrammatical(p: Path)
    requires WellFormedPath(p)
    ensures Grammatical(Print(p))
    decreases |p|
  {
    assert p == [p[0]] + p[1..];
    PrintReads(p[1..], p[0]);
    if |p| == 1 {
      forall i | 0 <= i < |Print(p)| ensures AllowedAt(Print(p), i) { assert p[0].name[i] in p[0].name; }
    } else {
      PathGrammatical(p[1..]);
      GrammaticalMore(p[1..], p[0]);
    }
  }

  // The segment that ends at place d.
  lemma SegmentBefore(s: string, d: nat) returns (seg: Segment)
    requires Grammatical(s) && 0 < d <= |s| && '.' !in s[..d] && (d < |s| ==> s[d] == '.')
    ensures LegalName(seg.name) && SegmentText(seg) == s[..d] && (d == |s| ==> !seg.isArray)
  {
    forall i | 0 <= i < d ensures s[i] != '.' { assert s[..d][i] in s[..d]; }
    if i :| 0 <= i < d && s[i] == '[' {
      assert AllowedAt(s, i);
      forall k | 0 <= k < i ensures s[k] != '[' && s[k] != ']' { NoBracketBefore(s, d, i, k); }
      seg := Segment(s[..i], true);
      assert s[..d] == s[..i] + "[]";
    } else {
      forall k | 0 <= k < d ensures s[k] != ']' { assert AllowedAt(s, k); }
      seg := Segment(s[..d], false);
    }
  }

  lemma NoBracketBefore(s: string, d: nat, i: nat, k: nat)
    requires Grammatical(s) && k < i < d <= |s| && s[i] == '[' && forall n :: 0 <= n < d ==> s[n] != '.'
    ensures s[k] != '[' && s[k] != ']'
  {
    assert AllowedAt(s, k) && AllowedAt(s, i);
    if k > 0 { assert AllowedAt(s, k - 1); }
  }

  lemma {:induction false} GrammaticalIsText(s: string) returns (p: Path)
    requires Grammatical(s)
    ensures WellFormedPath(p) && Print(p) == s
    decreases |s|
  {
    if '.' in s {
      var d := FirstDot(s);
      assert AllowedAt(s, d);
      var seg := SegmentBefore(s, d);
      RestGrammatical(s, d);
      var rest := GrammaticalIsText(s[d + 1..]);
      p := [seg] + rest;
      PrintReads(rest, seg);
      assert s == s[..d] + "." + s[d + 1..];
    } else {
      assert s[..|s|] == s;
      var seg := SegmentBefore(s, |s|);
      p := [seg];
      PrintReads([], seg);
    }
  }

  lemma FirstDot(s: string) returns (d: nat)
    requires '.' in s
    ensures d < |s| && s[d] == '.' && '.' !in s[..d]
  {
    d := 0;
    while s[d] != '.'
      invariant d < |s| && '.' !in s[..d] && '.' in s[d..]
      decreases |s| - d
    {
      assert s[..d + 1] == s[..d] + [s[d]] && s[d..] == [s[d]] + s[d + 1..];
      d := d + 1;
    }
  }

  lemma RestGrammatical(s: string, d: nat)
    requires Grammatical(s) && d < |s| && s[d] == '.'
    ensures Grammatical(s[d + 1..])
  {
    var rest := s[d + 1..];
    assert AllowedAt(s, d);
    forall i | 0 <= i < |rest| ensures AllowedAt(rest, i) { assert AllowedAt(s, d + 1 + i) && rest[i] == s[d + 1 + i]; }
  }

  // The texts of paths are the grammatical ones, told character by character.
  lemma PathTextExactly(s: string)
    ensures IsPathText(s) <==> Grammatical(s)
  {
    if p :| WellFormedPath(p) && Print(p) == s { PathGrammatical(p); }
    if Grammatical(s) { var p := GrammaticalIsText(s); }
  }

  lemma NestedPathText()
    ensures Print([Segment("items", true), Segment("sku", false)]) == "items[].sku"
  {
    var items, sku := Segment("items", true), Segment("sku", false);
    assert [items] + [sku] == [items, sku];
    PrintReads([sku], items);
    PrintReads([], sku);
  }

  ghost predicate IsPathText(s: string) {
    exists p :: WellFormedPath(p) && Print(p) == s
  }

  method PathString(p: Path) returns (s: string)
    ensures s == Print(p)
  {
    var parts: seq<string> := [];
    for i := 0 to |p|
      invariant parts == Texts(p)[..i]
    {
      parts := parts + [if p[i].isArray then p[i].name + "[]" else p[i].name];
    }
    assert Texts(p)[..|p|] == Texts(p);
    s := Join(parts);
  }

  // One segment as the parser reads it.
  function ParseSegment(text: string, last: bool): Option<Segment> {
    var isArray := |text| >= 2 && text[|text| - 2..] == "[]";
    var name := if isArray then text[..|text| - 2] else text;
    if text == "" || !LegalName(name) || (isArray && last) then None
    else Some(Segment(name, isArray))
  }

  lemma ParseSegmentPrints(text: string, last: bool)
    ensures ParseSegment(text, last).Some? ==> SegmentText(ParseSegment(text, last).value) == text
  {
    if |text| >= 2 { assert text[..|text| - 2] + text[|text| - 2..] == text; }
  }

  lemma PrintSegmentParses(s: Segment, last: bool)
    requires LegalName(s.name) && !(s.isArray && last)
    ensures '.' !in SegmentText(s) && ParseSegment(SegmentText(s), last) == Some(s)
  {
    var text := SegmentText(s);
    if s.isArray {
      assert text[|text| - 2..] == "[]" && text[..|text| - 2] == s.name;
    } else if |text| >= 2 {
      assert text[|text| - 1] in s.name;
      assert text[|text| - 2..][1] == text[|text| - 1];
    }
  }

  predicate ReadSoFar(segs: seq<string>, out: Path, i: nat) {
    |out| == i <= |segs| && forall k | 0 <= k < i :: ParseSegment(segs[k], k == |segs| - 1) == Some(out[k])
  }

  lemma ReadSegment(segs: seq<string>, out: Path, k: nat)
    requires k < |segs| && ReadSoFar(segs, out, |segs|)
    ensures LegalName(out[k].name) && SegmentText(out[k]) == segs[k] && (k == |segs| - 1 ==> !out[k].isArray)
  {
    ParseSegmentPrints(segs[k], k == |segs| - 1);
  }

  lemma AllRead(s: string, out: Path)
    requires ReadSoFar(Split(s), out, |Split(s)|)
    ensures WellFormedPath(out) && Print(out) == s
  {
    var segs := Split(s);
    forall k | 0 <= k < |segs|
      ensures LegalName(out[k].name) && SegmentText(out[k]) == segs[k] && (k == |segs| - 1 ==> !out[k].isArray)
    {
      ReadSegment(segs, out, k);
    }
    JoinSplit(s);
    assert Texts(out) == segs;
  }

  // ParsePath: it accepts exactly the texts of well-formed paths, and returns the path they print.
  method ParsePath(s: string) returns (r: Option<Path>)
    ensures r.Some? ==> WellFormedPath(r.value) && Print(r.value) == s
    ensures r.None? ==> !IsPathText(s)
    ensures r.Some? <==> Grammatical(s)
  {
    PathTextExactly(s);
    if s == "" {
      OddEnds(s);
      return None;
    }
    if s[0] == '.' || s[|s| - 1] == '.' {
      OddEnds(s);
      return None;
    }
    r := ReadSegments(s, Split(s));
  }

  // The loop over the dot-separated parts.
  method ReadSegments(s: string, segs: seq<string>) returns (r: Option<Path>)
    requires segs == Split(s)
    ensures r.Some? ==> WellFormedPath(r.value) && Print(r.value) == s
    ensures r.None? ==> !IsPathText(s)
  {
    var out: Path := [];
    for i := 0 to |segs|
      invariant ReadSoFar(segs, out, i)
    {
      var segment := ParseSegment(segs[i], i == |segs| - 1);
      if segment.None? {
        Refused(s, i);
        return None;
      }
      out := out + [segment.value];
    }
    AllRead(s, out);
    return Some(out);
  }

  lemma TextParses(p: Path, i: nat)
    requires WellFormedPath(p) && i < |p|
    ensures '.' !in Texts(p)[i] && ParseSegment(Texts(p)[i], i == |p| - 1) == Some(p[i])
  {
    assert LegalName(p[i].name);
    PrintSegmentParses(p[i], i == |p| - 1);
  }

  lemma PrintSplits(p: Path)
    requires WellFormedPath(p)
    ensures Split(Print(p)) == Texts(p)
  {
    forall i | 0 <= i < |p| ensures '.' !in Texts(p)[i] { TextParses(p, i); }
    SplitJoin(Texts(p));
  }

  // What a path's text splits back into.
  lemma Determined(p: Path, s: string)
    requires WellFormedPath(p) && Print(p) == s
    ensures |Split(s)| == |p|
    ensures forall i :: 0 <= i < |p| ==> ParseSegment(Split(s)[i], i == |p| - 1) == Some(p[i])
  {
    PrintSplits(p);
    forall i | 0 <= i < |p| ensures ParseSegment(Split(s)[i], i == |p| - 1) == Some(p[i]) { TextParses(p, i); }
  }

  lemma Refused(s: string, i: nat)
    requires i < |Split(s)| && ParseSegment(Split(s)[i], i == |Split(s)| - 1).None?
    ensures !IsPathText(s)
  {
    forall p | WellFormedPath(p) ensures Print(p) != s {
      if Print(p) == s { Determined(p, s); }
    }
  }

  lemma OddEnds(s: string)
    requires s == "" || s[0] == '.' || s[|s| - 1] == '.'
    ensures !IsPathText(s)
  {
    forall p | WellFormedPath(p) ensures Print(p) != s { EndsAreNames(p); }
  }

  lemma {:induction false} JoinEnds(parts: seq<string>)
    requires parts != [] && forall i :: 0 <= i < |parts| ==> parts[i] != ""
    ensures Join(parts) != "" && Join(parts)[0] == parts[0][0]
    ensures var z := parts[|parts| - 1]; Join(parts)[|Join(parts)| - 1] == z[|z| - 1]
    decreases |parts|
  {
    if |parts| > 1 { JoinEnds(parts[1..]); }
  }

  lemma EndsAreNames(p: Path)
    requires WellFormedPath(p)
    ensures var s := Print(p); s != "" && s[0] != '.' && s[|s| - 1] != '.'
  {
    var parts := Texts(p);
    JoinEnds(parts);
    assert parts[0][0] == p[0].name[0] && p[0].name[0] in p[0].name;
    var z := p[|p| - 1].name;
    assert parts[|parts| - 1] == z && z[|z| - 1] in z;
  }

  // Printing is one-to-one on well-formed paths.
  lemma PrintInjective(p: Path, q: Path)
    requires WellFormedPath(p) && WellFormedPath(q) && Print(p) == Print(q)
    ensures p == q
  {
    Determined(p, Print(p));
    Determined(q, Print(q));
    assert |p| == |q|;
    forall i | 0 <= i < |p| ensures p[i] == q[i] {}
  }
}
