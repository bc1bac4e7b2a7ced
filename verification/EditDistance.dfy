/**
  The edit distance of two code point strings: the recurrence, its meaning as the length of a
  shortest sequence of single insertions, deletions and substitutions, and the two-row table
  of str_utf32_dist_buffer that computes it.
*/
module EditDistance {
  function Min3(x: nat, y: nat, z: nat): nat {
    if x <= y && x <= z then x else if y <= z then y else z
  }

  function Differ(x: int, y: int): nat {
    if x != y then 1 else 0
  }

  function Init(s: seq<int>): seq<int>
    requires s != []
  {
    s[..|s| - 1]
  }

  function Last(s: seq<int>): int
    requires s != []
  {
    s[|s| - 1]
  }

  function Dist(a: seq<int>, b: seq<int>): nat
    decreases |a| + |b|
  {
    if a == [] then |b|
    else if b == [] then |a|
    else Min3(Dist(Init(a), b) + 1, Dist(a, Init(b)) + 1, Dist(Init(a), Init(b)) + Differ(Last(a), Last(b)))
  }

  // ----- a metric -----

  lemma {:induction false} Symmetric(a: seq<int>, b: seq<int>)
    ensures Dist(a, b) == Dist(b, a)
    decreases |a| + |b|
  {
    if a != [] && b != [] {
      Symmetric(Init(a), b);
      Symmetric(a, Init(b));
      Symmetric(Init(a), Init(b));
    }
  }

  lemma {:induction false} LengthBounds(a: seq<int>, b: seq<int>)
    ensures |a| - |b| <= Dist(a, b) && |b| - |a| <= Dist(a, b) <= |a| + |b|
    decreases |a| + |b|
  {
    if a != [] && b != [] {
      LengthBounds(Init(a), b);
      LengthBounds(a, Init(b));
      LengthBounds(Init(a), Init(b));
    }
  }

  /** The distance is zero on equal strings only. */
  lemma {:induction false} ZeroIffEqual(a: seq<int>, b: seq<int>)
    ensures Dist(a, b) == 0 <==> a == b
    decreases |a| + |b|
  {
    if a != [] && b != [] {
      ZeroIffEqual(Init(a), Init(b));
      assert a == Init(a) + [Last(a)] && b == Init(b) + [Last(b)];
    }
  }

  lemma {:induction false} Triangle(a: seq<int>, b: seq<int>, c: seq<int>)
    ensures Dist(a, c) <= Dist(a, b) + Dist(b, c)
    decreases |a| + |b| + |c|
  {
    if a == [] || b == [] || c == [] {
      LengthBounds(a, b);
      LengthBounds(b, c);
      LengthBounds(a, c);
    } else if Dist(a, b) == Dist(Init(a), b) + 1 {
      Triangle(Init(a), b, c);
    } else if Dist(b, c) == Dist(b, Init(c)) + 1 {
      Triangle(a, b, Init(c));
    } else if Dist(a, b) == Dist(a, Init(b)) + 1 {
      if Dist(b, c) == Dist(Init(b), c) + 1 {
        Triangle(a, Init(b), c);
      } else {
        Triangle(a, Init(b), Init(c));
      }
    } else if Dist(b, c) == Dist(Init(b), c) + 1 {
      Triangle(Init(a), Init(b), c);
    } else {
      Triangle(Init(a), Init(b), Init(c));
    }
  }

  // ----- edit sequences -----

  datatype Edit = Insert(pos: nat, c: int) | Delete(pos: nat) | Substitute(pos: nat, c: int)

  ghost predicate Applies(e: Edit, s: seq<int>) {
    if e.Insert? then e.pos <= |s| else e.pos < |s|
  }

  ghost function Apply(e: Edit, s: seq<int>): seq<int>
    requires Applies(e, s)
  {
    match e
    case Insert(pos, c) => s[..pos] + [c] + s[pos..]
    case Delete(pos) => s[..pos] + s[pos + 1..]
    case Substitute(pos, c) => s[..pos] + [c] + s[pos + 1..]
  }

  /** The edits, one after the other, turn a into b. */
  ghost predicate Transforms(edits: seq<Edit>, a: seq<int>, b: seq<int>) {
    if edits == [] then a == b
    else Applies(edits[0], a) && Transforms(edits[1..], Apply(edits[0], a), b)
  }

  lemma {:induction false} CommonSuffix(a: seq<int>, b: seq<int>, s: seq<int>)
    ensures Dist(a + s, b + s) <= Dist(a, b)
  {
    if s == [] {
      assert a + s == a && b + s == b;
    } else {
      CommonSuffix(a, b, Init(s));
      assert Init(a + s) == a + Init(s) && Init(b + s) == b + Init(s);
    }
  }

  lemma EditMovesByOne(e: Edit, s: seq<int>)
    requires Applies(e, s)
    ensures Dist(s, Apply(e, s)) <= 1
  {
    hide Dist;
    var p := s[..e.pos];
    match e
    case Insert(pos, c) =>
      LastEdit(p, c, c);
      CommonSuffix(p, p + [c], s[pos..]);
      assert p + s[pos..] == s;
    case Delete(pos) =>
      LastEdit(p, s[pos], s[pos]);
      CommonSuffix(p + [s[pos]], p, s[pos + 1..]);
      assert p + [s[pos]] + s[pos + 1..] == s;
    case Substitute(pos, c) =>
      LastEdit(p, s[pos], c);
      CommonSuffix(p + [s[pos]], p + [c], s[pos + 1..]);
      assert p + [s[pos]] + s[pos + 1..] == s;
  }

  lemma LastEdit(p: seq<int>, c: int, d: int)
    ensures Dist(p, p + [c]) <= 1 && Dist(p + [c], p) <= 1 && Dist(p + [c], p + [d]) <= 1
  {
    ZeroIffEqual(p, p);
    assert Init(p + [c]) == p && Init(p + [d]) == p;
  }

  /** No sequence of edits is shorter than the distance. */
  lemma {:induction false} NoShorterEdits(edits: seq<Edit>, a: seq<int>, b: seq<int>)
    requires Transforms(edits, a, b)
    ensures Dist(a, b) <= |edits|
    decreases |edits|
  {
    if edits == [] {
      ZeroIffEqual(a, b);
    } else {
      NoShorterEdits(edits[1..], Apply(edits[0], a), b);
      EditMovesByOne(edits[0], a);
      Triangle(a, Apply(edits[0], a), b);
    }
  }

  lemma {:induction false} ThenEdit(edits: seq<Edit>, a: seq<int>, b: seq<int>, e: Edit)
    requires Transforms(edits, a, b) && Applies(e, b)
    ensures Transforms(edits + [e], a, Apply(e, b))
    decreases |edits|
  {
    if edits == [] {
      assert (edits + [e])[1..] == [];
    } else {
      ThenEdit(edits[1..], Apply(edits[0], a), b, e);
      assert (edits + [e])[1..] == edits[1..] + [e];
    }
  }

  lemma EditBeforeSuffix(e: Edit, a: seq<int>, c: int)
    requires Applies(e, a)
    ensures Applies(e, a + [c]) && Apply(e, a + [c]) == Apply(e, a) + [c]
  {
  }

  /** Edits of a prefix leave what follows it alone. */
  lemma {:induction false} BeforeSuffix(edits: seq<Edit>, a: seq<int>, b: seq<int>, c: int)
    requires Transforms(edits, a, b)
    ensures Transforms(edits, a + [c], b + [c])
    decreases |edits|
  {
    hide Apply, Applies;
    if edits != [] {
      EditBeforeSuffix(edits[0], a, c);
      BeforeSuffix(edits[1..], Apply(edits[0], a), b, c);
    }
  }

  lemma DeleteLastFirst(edits: seq<Edit>, a: seq<int>, b: seq<int>)
    requires a != [] && Transforms(edits, Init(a), b)
    ensures Transforms([Delete(|a| - 1)] + edits, a, b)
  {
    assert Apply(Delete(|a| - 1), a) == Init(a);
    assert ([Delete(|a| - 1)] + edits)[1..] == edits;
  }

  lemma InsertLastLast(edits: seq<Edit>, a: seq<int>, b: seq<int>)
    requires b != [] && Transforms(edits, a, Init(b))
    ensures Transforms(edits + [Insert(|b| - 1, Last(b))], a, b)
  {
    ThenEdit(edits, a, Init(b), Insert(|b| - 1, Last(b)));
    assert Apply(Insert(|b| - 1, Last(b)), Init(b)) == b;
  }

  lemma MatchLast(edits: seq<Edit>, a: seq<int>, b: seq<int>) returns (edits2: seq<Edit>)
    requires a != [] && b != [] && Transforms(edits, Init(a), Init(b))
    ensures Transforms(edits2, a, b) && |edits2| == |edits| + Differ(Last(a), Last(b))
  {
    hide Transforms;
    BeforeSuffix(edits, Init(a), Init(b), Last(a));
    assert Init(a) + [Last(a)] == a && Init(b) + [Last(b)] == b;
    edits2 := edits;
    if Last(a) != Last(b) {
      var e := Substitute(|b| - 1, Last(b));
      ThenEdit(edits, a, Init(b) + [Last(a)], e);
      assert Apply(e, Init(b) + [Last(a)]) == b;
      edits2 := edits + [e];
    }
  }

  /** Some sequence of edits is exactly as long as the distance. */
  lemma {:induction false} ShortestEdits(a: seq<int>, b: seq<int>) returns (edits: seq<Edit>)
    ensures Transforms(edits, a, b) && |edits| == Dist(a, b)
    decreases |a| + |b|
  {
    if a == [] && b == [] {
      edits := [];
    } else if b == [] || (a != [] && Dist(a, b) == Dist(Init(a), b) + 1) {
      edits := ShortestEdits(Init(a), b);
      DeleteLastFirst(edits, a, b);
      edits := [Delete(|a| - 1)] + edits;
    } else if a == [] || Dist(a, b) == Dist(a, Init(b)) + 1 {
      edits := ShortestEdits(a, Init(b));
      InsertLastLast(edits, a, b);
      edits := edits + [Insert(|b| - 1, Last(b))];
    } else {
      edits := ShortestEdits(Init(a), Init(b));
      edits := MatchLast(edits, a, b);
    }
  }

  /** The recurrence gives the length of a shortest edit sequence, and nothing else does. */
  lemma DistIsShortest(a: seq<int>, b: seq<int>, n: nat)
    ensures n == Dist(a, b) <==>
              && (exists edits :: Transforms(edits, a, b) && |edits| == n)
              && (forall edits :: Transforms(edits, a, b) ==> n <= |edits|)
  {
    var best := ShortestEdits(a, b);
    forall edits | Transforms(edits, a, b)
      ensures Dist(a, b) <= |edits|
    {
      NoShorterEdits(edits, a, b);
    }
  }

  // ----- the table -----

  /** Cells base .. base + |a| hold the distances of all prefixes of a to b. */
  ghost predicate Row(mem: seq<int>, base: nat, a: seq<int>, b: seq<int>) {
    base + |a| < |mem| && forall k :: base <= k <= base + |a| ==> mem[k] == Dist(a[..k - base], b)
  }

  lemma Cell(a: seq<int>, b: seq<int>, i: nat, j: nat)
    requires 1 <= i <= |a| && 1 <= j <= |b|
    ensures Dist(a[..i], b[..j])
         == Min3(Dist(a[..i - 1], b[..j]) + 1, Dist(a[..i], b[..j - 1]) + 1,
                 Dist(a[..i - 1], b[..j - 1]) + Differ(a[i - 1], b[j - 1]))
  {
    hide Dist;
    var x, y := a[..i], b[..j];
    assert Init(x) == a[..i - 1] && Init(y) == b[..j - 1];
    DistStep(x, y);
  }

  lemma DistStep(a: seq<int>, b: seq<int>)
    requires a != [] && b != []
    ensures Dist(a, b)
         == Min3(Dist(Init(a), b) + 1, Dist(a, Init(b)) + 1, Dist(Init(a), Init(b)) + Differ(Last(a), Last(b)))
  {
    hide Min3, Differ, Init, Last;
  }

  /** Cells at .. at + |s| hold the string s. */
  ghost predicate Holds(mem: seq<int>, at: nat, s: seq<int>) {
    at + |s| <= |mem| && forall k :: at <= k < at + |s| ==> mem[k] == s[k - at]
  }

  /** The cells from lo up to hi are the only ones that may differ. */
  ghost predicate SameOutside(mem: seq<int>, mem2: seq<int>, lo: nat, hi: nat) {
    |mem| == |mem2| && forall k :: 0 <= k < |mem| && !(lo <= k < hi) ==> mem[k] == mem2[k]
  }

  /** One pass of the inner loop: row j from row j - 1. */
  method FillRow(mem: array<int>, a: nat, aLen: nat, b: nat, j: nat, prev: nat, cur: nat,
                 ghost sa: seq<int>, ghost sb: seq<int>)
    requires |sa| == aLen && 1 <= j <= |sb| && Holds(mem[..], a, sa) && Holds(mem[..], b, sb)
    requires cur + aLen < mem.Length
    requires cur + aLen < prev || prev + aLen < cur
    requires a + aLen <= cur || cur + aLen < a
    requires b + |sb| <= cur || cur + aLen < b
    requires Row(mem[..], prev, sa, sb[..j - 1])
    modifies mem
    ensures Row(mem[..], cur, sa, sb[..j])
    ensures SameOutside(old(mem[..]), mem[..], cur, cur + aLen + 1)
  {
    hide Dist;
    FirstColumn(sb[..j]);
    assert sa[..0] == [];
    mem[cur] := j;
    for i := 1 to aLen + 1
      invariant SameOutside(old(mem[..]), mem[..], cur, cur + aLen + 1)
      invariant forall k :: cur <= k < cur + i ==> mem[k] == Dist(sa[..k - cur], sb[..j])
    {
      Cell(sa, sb, i, j);
      var subst := if mem[a + i - 1] != mem[b + j - 1] then 1 else 0;
      ghost var was := mem[..];
      assert was[a + i - 1] == sa[i - 1] && was[b + j - 1] == sb[j - 1];
      assert was[prev + i] == Dist(sa[..i], sb[..j - 1]);
      assert was[prev + i - 1] == Dist(sa[..i - 1], sb[..j - 1]);
      assert was[cur + i - 1] == Dist(sa[..i - 1], sb[..j]);
      mem[cur + i] := Min3(mem[cur + i - 1] + 1, mem[prev + i] + 1, mem[prev + i - 1] + subst);
    }
  }

  /** Where row j starts: the two rows of aLen + 1 cells take turns. */
  function RowBase(buf: nat, j: nat, aLen: nat): nat {
    if j % 2 == 0 then buf else buf + (aLen + 1)
  }

  /**
    str_utf32_dist_buffer on one memory: strings of aLen and bLen cells at a and b, scratch space
    of bufLen cells at buf. The shorter string runs along the rows.
  */
  method Utf32DistBuffer(mem: array<int>, a0: nat, aLen0: nat, b0: nat, bLen0: nat, buf: nat, bufLen: nat)
    returns (dist: nat)
    requires bufLen >= (aLen0 + 1) + (bLen0 + 1)
    requires a0 + aLen0 <= mem.Length && b0 + bLen0 <= mem.Length && buf + bufLen <= mem.Length
    requires a0 + aLen0 <= buf || buf + bufLen <= a0
    requires b0 + bLen0 <= buf || buf + bufLen <= b0
    modifies mem
    ensures dist == Dist(old(mem[a0..a0 + aLen0]), old(mem[b0..b0 + bLen0]))
    ensures SameOutside(old(mem[..]), mem[..], buf, buf + bufLen)
  {
    hide Dist, Row;
    var a, aLen, b, bLen := a0, aLen0, b0, bLen0;
    if aLen > bLen {
      a, aLen, b, bLen := b0, bLen0, a0, aLen0;
    }
    Symmetric(mem[a0..a0 + aLen0], mem[b0..b0 + bLen0]);
    dist := FillTable(mem, a, aLen, b, bLen, buf, bufLen, mem[a..a + aLen], mem[b..b + bLen]);
  }

  method FillTable(mem: array<int>, a: nat, aLen: nat, b: nat, bLen: nat, buf: nat, bufLen: nat,
                   ghost sa: seq<int>, ghost sb: seq<int>)
    returns (dist: nat)
    requires aLen == |sa| && bLen == |sb| && bufLen >= 2 * (aLen + 1) && buf + bufLen <= mem.Length
    requires Holds(mem[..], a, sa) && Holds(mem[..], b, sb)
    requires a + aLen <= buf || buf + bufLen <= a
    requires b + bLen <= buf || buf + bufLen <= b
    modifies mem
    ensures dist == Dist(sa, sb) && SameOutside(old(mem[..]), mem[..], buf, buf + bufLen)
  {
    hide Dist, Row, SameOutside, Holds;
    ghost var start := mem[..];
    InitRow(mem, buf, sa, aLen);
    SameTrans(start, start, mem[..], buf, buf + aLen + 1, buf, buf + bufLen);
    assert sb[..0] == [];
    for j := 1 to bLen + 1
      invariant SameOutside(start, mem[..], buf, buf + bufLen)
      invariant Row(mem[..], RowBase(buf, j - 1, aLen), sa, sb[..j - 1])
    {
      ghost var was := mem[..];
      HoldsFrame(start, was, buf, buf + bufLen, a, sa);
      HoldsFrame(start, was, buf, buf + bufLen, b, sb);
      var cur := RowBase(buf, j, aLen);
      FillRow(mem, a, aLen, b, j, RowBase(buf, j - 1, aLen), cur, sa, sb);
      SameTrans(start, was, mem[..], cur, cur + aLen + 1, buf, buf + bufLen);
    }
    assert sb[..bLen] == sb && sa[..aLen] == sa;
    dist := LastCell(mem, RowBase(buf, bLen, aLen), aLen, sa, sb);
  }

  lemma HoldsFrame(m: seq<int>, m2: seq<int>, lo: nat, hi: nat, at: nat, s: seq<int>)
    requires SameOutside(m, m2, lo, hi) && Holds(m, at, s) && (at + |s| <= lo || hi <= at)
    ensures Holds(m2, at, s)
  {
  }

  lemma SameTrans(m: seq<int>, m1: seq<int>, m2: seq<int>, lo1: nat, hi1: nat, lo: nat, hi: nat)
    requires m == m1 || SameOutside(m, m1, lo, hi)
    requires SameOutside(m1, m2, lo1, hi1) && lo <= lo1 && hi1 <= hi
    ensures SameOutside(m, m2, lo, hi)
  {
  }

  /** The zeroth row. */
  method InitRow(mem: array<int>, buf: nat, ghost sa: seq<int>, aLen: nat)
    requires aLen == |sa| && buf + aLen < mem.Length
    modifies mem
    ensures Row(mem[..], buf, sa, [])
    ensures SameOutside(old(mem[..]), mem[..], buf, buf + aLen + 1)
  {
    FirstRow(sa);
    for i := 0 to aLen + 1
      invariant SameOutside(old(mem[..]), mem[..], buf, buf + aLen + 1)
      invariant forall k :: buf <= k < buf + i ==> mem[k] == k - buf
    {
      mem[buf + i] := i;
    }
  }

  method LastCell(mem: array<int>, base: nat, aLen: nat, ghost sa: seq<int>, ghost sb: seq<int>) returns (dist: nat)
    requires aLen == |sa| && Row(mem[..], base, sa, sb)
    ensures dist == Dist(sa, sb)
  {
    assert sa[..base + aLen - base] == sa;
    assert mem[base + aLen] == mem[..][base + aLen];
    dist := mem[base + aLen];
  }

  lemma FirstColumn(b: seq<int>)
    ensures Dist([], b) == |b|
  {
  }

  lemma FirstRow(a: seq<int>)
    ensures forall i :: 0 <= i <= |a| ==> Dist(a[..i], []) == i
  {
  }
}
