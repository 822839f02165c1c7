/** Gauss-Jordan inversion of 3x3 matrices (colorutils.cpp), over the real numbers.

    The row swap of the source exchanges only the first elements of two rows, three times.  The code
    is modelled as it is; where it would divide by zero the model stops, because from then on the
    result contains values that are not finite.
  */
module MatrixInverse {

  datatype Row = Row(x: real, y: real, z: real)

  type Index = i: int | 0 <= i < 3

  type Matrix = m: seq<Row> | |m| == 3 witness [Row(0.0, 0.0, 0.0), Row(0.0, 0.0, 0.0), Row(0.0, 0.0, 0.0)]

  function At(r: Row, j: Index): real {
    if j == 0 then r.x else if j == 1 then r.y else r.z
  }

  function Identity(): Matrix {
    [Row(1.0, 0.0, 0.0), Row(0.0, 1.0, 0.0), Row(0.0, 0.0, 1.0)]
  }

  // ----- Row operations

  function Divided(r: Row, d: real): Row
    requires d != 0.0
  {
    Row(r.x / d, r.y / d, r.z / d)
  }

  /** r - f * s */
  function Reduced(r: Row, f: real, s: Row): Row {
    Row(r.x - f * s.x, r.y - f * s.y, r.z - f * s.z)
  }

  /** What the row swap does. */
  function FirstSwapped(m: Matrix, i: Index, k: Index): Matrix {
    m[i := m[i].(x := m[k].x)][k := m[k].(x := m[i].x)]
  }

  /** Row r of both matrices is divided by lv. */
  function Normalized(m: Matrix, r: Index, lv: real): Matrix
    requires lv != 0.0
  {
    m[r := Divided(m[r], lv)]
  }

  /** The other rows lose their element in the column of the pivot; f gives the factors. */
  function Eliminated(m: Matrix, r: Index, f: Row): Matrix {
    seq(3, i requires 0 <= i < 3 => if i == r then m[i] else Reduced(m[i], At(f, i), m[r]))
  }

  function Column(m: Matrix, j: Index): Row {
    Row(At(m[0], j), At(m[1], j), At(m[2], j))
  }

  // ----- The algorithm

  datatype Pivot = NoPivot | Found(row: Index, lead: Index)

  /** The search for a pivot, from row i of the column lead on, then from row r of the next columns. */
  function FindPivot(m: Matrix, r: Index, i: Index, lead: Index): Pivot
    decreases 3 - lead, 3 - i
  {
    if At(m[i], lead) != 0.0 then Found(i, lead)
    else if i < 2 then FindPivot(m, r, i + 1, lead)
    else if lead < 2 then FindPivot(m, r, r, lead + 1)
    else NoPivot
  }

  datatype Outcome =
    | Inverted(em: Matrix)  // returns true
    | Singular              // returns false
    | NotFinite             // a division by zero

  /** Steps r, r + 1, ... of the reduction. */
  function Reduce(m: Matrix, em: Matrix, r: nat, lead: nat): Outcome
    requires r <= 3
    decreases 3 - r
  {
    if r == 3 || lead >= 3 then Inverted(em)
    else
      match FindPivot(m, r, r, lead)
      case NoPivot => Singular
      case Found(i, l) =>
        var (a, b) := (FirstSwapped(m, i, r), FirstSwapped(em, i, r));
        var lv := At(a[r], l);
        if lv == 0.0 then NotFinite
        else
          var (c, d) := (Normalized(a, r, lv), Normalized(b, r, lv));
          Reduce(Eliminated(c, r, Column(c, l)), Eliminated(d, r, Column(c, l)), r + 1, l + 1)
  }

  function Inverse(m: Matrix): Outcome {
    Reduce(m, Identity(), 0, 0)
  }

  // ----- The code

  ghost predicate Square(a: array2<real>) {
    a.Length0 == 3 && a.Length1 == 3
  }

  function Value(a: array2<real>): Matrix
    requires Square(a)
    reads a
  {
    [Row(a[0, 0], a[0, 1], a[0, 2]), Row(a[1, 0], a[1, 1], a[1, 2]), Row(a[2, 0], a[2, 1], a[2, 2])]
  }

  method SwapRows(r1: Index, r2: Index, matrix: array2<real>)
    requires Square(matrix)
    modifies matrix
    ensures Value(matrix) == FirstSwapped(old(Value(matrix)), r1, r2)
  {
    for c := 0 to 3
      invariant Value(matrix) == if c % 2 == 0 then old(Value(matrix)) else FirstSwapped(old(Value(matrix)), r1, r2)
    {
      ghost var before := Value(matrix);
      var temp := matrix[r1, 0];
      matrix[r1, 0] := matrix[r2, 0];
      matrix[r2, 0] := temp;
      assert forall k :: 0 <= k < 3 ==> Value(matrix)[k] == FirstSwapped(before, r1, r2)[k];
      assert Value(matrix) == FirstSwapped(before, r1, r2);
      SwappedTwice(old(Value(matrix)), r1, r2);
    }
  }

  lemma SwappedTwice(m: Matrix, i: Index, k: Index)
    ensures FirstSwapped(FirstSwapped(m, i, k), i, k) == m
  {
  }

  method MatrixCopy(from: array2<real>, to: array2<real>)
    requires Square(from) && Square(to) && from != to
    modifies to
    ensures Value(to) == Value(from)
  {
    for r := 0 to 3
      invariant forall i, j :: 0 <= i < r && 0 <= j < 3 ==> to[i, j] == from[i, j]
    {
      for c := 0 to 3
        invariant forall i, j :: 0 <= i < r && 0 <= j < 3 ==> to[i, j] == from[i, j]
        invariant forall j :: 0 <= j < c ==> to[r, j] == from[r, j]
      {
        to[r, c] := from[r, c];
      }
    }
  }

  method NormalizeRow(a: array2<real>, r: Index, lv: real)
    requires Square(a) && lv != 0.0
    modifies a
    ensures Value(a) == Normalized(old(Value(a)), r, lv)
  {
    for j := 0 to 3
      invariant forall i, k :: 0 <= i < 3 && 0 <= k < 3 ==>
                a[i, k] == if i == r && k < j then old(a[i, k]) / lv else old(a[i, k])
    {
      a[r, j] := a[r, j] / lv;
    }
  }

  method ReduceRow(a: array2<real>, i: Index, r: Index, f: real)
    requires Square(a) && i != r
    modifies a
    ensures Value(a) == old(Value(a))[i := Reduced(old(Value(a))[i], f, old(Value(a))[r])]
  {
    for j := 0 to 3
      invariant forall l, k :: 0 <= l < 3 && 0 <= k < 3 && (l != i || k >= j) ==> a[l, k] == old(a[l, k])
      invariant forall k :: 0 <= k < j ==> a[i, k] == old(a[i, k]) - f * old(a[r, k])
    {
      a[i, j] := a[i, j] - f * a[r, j];
    }
    ghost var reduced := old(Value(a))[i := Reduced(old(Value(a))[i], f, old(Value(a))[r])];
    assert forall l :: 0 <= l < 3 ==> Value(a)[l] == reduced[l];
  }

  method EliminateColumn(matrix: array2<real>, em: array2<real>, r: Index, lead: Index)
    requires Square(matrix) && Square(em) && matrix != em
    modifies matrix, em
    ensures Value(matrix) == Eliminated(old(Value(matrix)), r, Column(old(Value(matrix)), lead))
    ensures Value(em) == Eliminated(old(Value(em)), r, Column(old(Value(matrix)), lead))
  {
    ghost var m, e := Value(matrix), Value(em);
    ghost var f := Column(m, lead);
    for i := 0 to 3
      invariant forall k :: 0 <= k < 3 ==> Value(matrix)[k] == if k < i then Eliminated(m, r, f)[k] else m[k]
      invariant forall k :: 0 <= k < 3 ==> Value(em)[k] == if k < i then Eliminated(e, r, f)[k] else e[k]
    {
      if i != r {
        var lv := matrix[i, lead];
        assert lv == At(f, i) by { assert Value(matrix)[i] == m[i]; }
        assert Value(matrix)[r] == m[r] && Value(em)[r] == e[r];
        ReduceRow(matrix, i, r, lv);
        ReduceRow(em, i, r, lv);
      }
    }
  }

  method UsePivot(matrix: array2<real>, em: array2<real>, r: Index, lead: Index, lv: real)
    requires Square(matrix) && Square(em) && matrix != em && lv != 0.0
    modifies matrix, em
    ensures var c := Normalized(old(Value(matrix)), r, lv);
            && Value(matrix) == Eliminated(c, r, Column(c, lead))
            && Value(em) == Eliminated(Normalized(old(Value(em)), r, lv), r, Column(c, lead))
  {
    NormalizeRow(matrix, r, lv);
    NormalizeRow(em, r, lv);
    EliminateColumn(matrix, em, r, lead);
  }

  /** The search for a pivot, which may move on to other columns. */
  method SearchPivot(matrix: array2<real>, r: Index, lead0: Index) returns (found: bool, i: Index, lead: Index)
    requires Square(matrix)
    ensures FindPivot(Value(matrix), r, r, lead0) == if found then Found(i, lead) else NoPivot
    ensures found ==> matrix[i, lead] != 0.0 && (i == r || matrix[r, lead] == 0.0)
  {
    i, lead := r, lead0;
    while matrix[i, lead] == 0.0
      invariant FindPivot(Value(matrix), r, r, lead0) == FindPivot(Value(matrix), r, i, lead)
      invariant i == r || matrix[r, lead] == 0.0
      decreases 3 - lead, 3 - i
    {
      if i + 1 < 3 {
        i := i + 1;
      } else if lead + 1 < 3 {
        i := r;
        lead := lead + 1;
      } else {
        return false, i, lead;
      }
    }
    return true, i, lead;
  }

  /** One step of the reduction: the body of the outer loop. */
  method ReduceStep(matrix: array2<real>, em: array2<real>, r: Index, lead0: Index)
    returns (ok: bool, finite: bool, lead: nat)
    requires Square(matrix) && Square(em) && matrix != em
    modifies matrix, em
    ensures var before := old(Reduce(Value(matrix), Value(em), r, lead0));
            before ==
            if !ok then Singular else if !finite then NotFinite else Reduce(Value(matrix), Value(em), r + 1, lead)
  {
    var found, i: Index, l: int := SearchPivot(matrix, r, lead0);
    lead := l + 1;
    if !found { return false, true, lead; }
    SwapRows(i, r, matrix);
    SwapRows(i, r, em);
    var lv := matrix[r, l];
    assert lv == At(Value(matrix)[r], l);
    if lv == 0.0 { return true, false, lead; }
    UsePivot(matrix, em, r, l, lv);
    return true, true, lead;
  }

  /** Returns whether an inverse was found; `finite` is false where the code divides by zero.  A matrix
      may be inverted into itself. */
  method InverseInto(inmatrix: array2<real>, em: array2<real>) returns (ok: bool, finite: bool)
    requires Square(inmatrix) && Square(em)
    modifies em
    ensures Inverse(old(Value(inmatrix))) ==
            if !ok then Singular else if !finite then NotFinite else Inverted(Value(em))
  {
    ghost var goal := Inverse(Value(inmatrix));
    var matrix := new real[3, 3];
    MatrixCopy(inmatrix, matrix);
    em[0, 0], em[0, 1], em[0, 2] := 1.0, 0.0, 0.0;
    em[1, 0], em[1, 1], em[1, 2] := 0.0, 1.0, 0.0;
    em[2, 0], em[2, 1], em[2, 2] := 0.0, 0.0, 1.0;
    var lead: nat := 0;
    for r := 0 to 3
      invariant fresh(matrix) && Square(matrix)
      invariant Reduce(Value(matrix), Value(em), r, lead) == goal
    {
      if lead >= 3 { break; }
      ok, finite, lead := ReduceStep(matrix, em, r, lead);
      if !ok || !finite { return; }
    }
    return true, true;
  }

  // ----- Products

  function Dot(e: Row, c: Row): real {
    e.x * c.x + e.y * c.y + e.z * c.z
  }

  /** The row vector e times m. */
  function Combine(e: Row, m: Matrix): Row {
    Row(Dot(e, Column(m, 0)), Dot(e, Column(m, 1)), Dot(e, Column(m, 2)))
  }

  function Product(e: Matrix, m: Matrix): Matrix {
    [Combine(e[0], m), Combine(e[1], m), Combine(e[2], m)]
  }

  lemma DotDivided(e: Row, d: real, c: Row)
    requires d != 0.0
    ensures Dot(Divided(e, d), c) == Dot(e, c) / d
  {
    assert e.x / d * c.x == e.x * c.x / d;
    assert e.y / d * c.y == e.y * c.y / d;
    assert e.z / d * c.z == e.z * c.z / d;
  }

  lemma DotReduced(e: Row, f: real, s: Row, c: Row)
    ensures Dot(Reduced(e, f, s), c) == Dot(e, c) - f * Dot(s, c)
  {
  }

  lemma CombineDivided(e: Row, d: real, m: Matrix)
    requires d != 0.0
    ensures Combine(Divided(e, d), m) == Divided(Combine(e, m), d)
  {
    DotDivided(e, d, Column(m, 0));
    DotDivided(e, d, Column(m, 1));
    DotDivided(e, d, Column(m, 2));
  }

  lemma CombineReduced(e: Row, f: real, s: Row, m: Matrix)
    ensures Combine(Reduced(e, f, s), m) == Reduced(Combine(e, m), f, Combine(s, m))
  {
    DotReduced(e, f, s, Column(m, 0));
    DotReduced(e, f, s, Column(m, 1));
    DotReduced(e, f, s, Column(m, 2));
  }

  /** One step with a pivot keeps em * original == matrix. */
  lemma StepKeepsProduct(original: Matrix, m: Matrix, em: Matrix, r: Index, lv: real, f: Row)
    requires Product(em, original) == m && lv != 0.0
    ensures Product(Eliminated(Normalized(em, r, lv), r, f), original) == Eliminated(Normalized(m, r, lv), r, f)
  {
    var c, d := Normalized(m, r, lv), Normalized(em, r, lv);
    CombineDivided(em[r], lv, original);
    assert forall i :: 0 <= i < 3 ==> Combine(d[i], original) == c[i];
    forall i | 0 <= i < 3
      ensures Combine(Eliminated(d, r, f)[i], original) == Eliminated(c, r, f)[i]
    {
      if i != r { CombineReduced(d[i], At(f, i), d[r], original); }
    }
  }

  // ----- Leading principal minors

  function Minor1(m: Matrix): real {
    m[0].x
  }

  function Minor2(m: Matrix): real {
    m[0].x * m[1].y - m[0].y * m[1].x
  }

  function Determinant(m: Matrix): real {
    m[0].x * (m[1].y * m[2].z - m[1].z * m[2].y)
    - m[0].y * (m[1].x * m[2].z - m[1].z * m[2].x)
    + m[0].z * (m[1].x * m[2].y - m[1].y * m[2].x)
  }

  predicate Regular(m: Matrix) {
    Minor1(m) != 0.0 && Minor2(m) != 0.0 && Determinant(m) != 0.0
  }

  // ----- The reduction, pivot by pivot

  /** The matrix after a step with pivot lv in row r and column l. */
  function Stepped(m: Matrix, r: Index, l: Index): Matrix
    requires At(m[r], l) != 0.0
  {
    var c := Normalized(m, r, At(m[r], l));
    Eliminated(c, r, Column(c, l))
  }

  function SteppedAlong(em: Matrix, m: Matrix, r: Index, l: Index): Matrix
    requires At(m[r], l) != 0.0
  {
    var lv := At(m[r], l);
    Eliminated(Normalized(em, r, lv), r, Column(Normalized(m, r, lv), l))
  }

  lemma NothingSwapped(m: Matrix, r: Index)
    ensures FirstSwapped(m, r, r) == m
  {
  }

  /** A pivot found in its own row is used as it is. */
  lemma DirectStep(m: Matrix, em: Matrix, r: Index, lead: Index, l: Index)
    requires FindPivot(m, r, r, lead) == Found(r, l) && At(m[r], l) != 0.0
    ensures Reduce(m, em, r, lead) == Reduce(Stepped(m, r, l), SteppedAlong(em, m, r, l), r + 1, l + 1)
  {
    NothingSwapped(m, r);
    NothingSwapped(em, r);
  }

  /** What the search finds: a non-zero element, and zeros where it started in the same column. */
  lemma {:induction false} PivotFound(m: Matrix, r: Index, i: Index, lead: Index)
    requires i == r || At(m[r], lead) == 0.0
    ensures var p := FindPivot(m, r, i, lead);
            p.Found? ==> p.lead >= lead && At(m[p.row], p.lead) != 0.0 && (p.row != r ==> At(m[r], p.lead) == 0.0)
    decreases 3 - lead, 3 - i
  {
    if At(m[i], lead) == 0.0 {
      if i < 2 {
        PivotFound(m, r, i + 1, lead);
      } else if lead < 2 {
        PivotFound(m, r, r, lead + 1);
      }
    }
  }

  /** From the second column on, a pivot found in another row makes the code divide by zero: the
      swap does not bring it into place. */
  lemma SwapFails(m: Matrix, em: Matrix, r: Index, lead: Index)
    requires lead >= 1 && FindPivot(m, r, r, lead).Found? && FindPivot(m, r, r, lead).row != r
    ensures Reduce(m, em, r, lead) == NotFinite
  {
    PivotFound(m, r, r, lead);
  }

  /** The determinant of the lower right part. */
  function Lower(m: Matrix): real {
    m[1].y * m[2].z - m[1].z * m[2].y
  }

  lemma FirstStep(m: Matrix)
    requires Minor1(m) != 0.0
    ensures var n := Stepped(m, 0, 0);
            && n[0].x == 1.0 && n[1].x == 0.0 && n[2].x == 0.0
            && (Minor2(m) == 0.0 <==> n[1].y == 0.0)
            && (Determinant(m) == 0.0 <==> Lower(n) == 0.0)
  {
    var p := m[0].x;
    var a, b := m[0].y / p, m[0].z / p;
    Quotients(p);
    assert m[0].y == p * a && m[0].z == p * b;
    var n := Stepped(m, 0, 0);
    assert n[1] == Row(m[1].x - m[1].x * 1.0, m[1].y - m[1].x * a, m[1].z - m[1].x * b);
    assert n[2] == Row(m[2].x - m[2].x * 1.0, m[2].y - m[2].x * a, m[2].z - m[2].x * b);
    Schur(p, a, b, m[1], m[2]);
    ZeroFactor(p, n[1].y);
    ZeroFactor(p, Lower(n));
  }

  lemma Quotients(p: real)
    requires p != 0.0
    ensures p / p == 1.0 && 0.0 / p == 0.0
  {
  }

  /** The minors of a matrix whose first row is p * (1, a, b). */
  lemma Schur(p: real, a: real, b: real, s: Row, t: Row)
    ensures p * s.y - p * a * s.x == p * (s.y - s.x * a)
    ensures p * (s.y * t.z - s.z * t.y) - p * a * (s.x * t.z - s.z * t.x) + p * b * (s.x * t.y - s.y * t.x)
         == p * ((s.y - s.x * a) * (t.z - t.x * b) - (s.z - s.x * b) * (t.y - t.x * a))
  {
  }

  lemma SecondStep(n: Matrix)
    requires n[0].x == 1.0 && n[1].x == 0.0 && n[2].x == 0.0 && n[1].y != 0.0
    ensures var o := Stepped(n, 1, 1);
            && o[0].x == 1.0 && o[1].x == 0.0 && o[2].x == 0.0
            && o[0].y == 0.0 && o[1].y == 1.0 && o[2].y == 0.0
            && (Lower(n) == 0.0 <==> o[2].z == 0.0)
  {
    var p, g := n[1].y, n[1].z / n[1].y;
    Quotients(p);
    assert n[1].z == p * g;
    var o := Stepped(n, 1, 1);
    assert o[1] == Row(0.0, 1.0, g);
    assert o[2] == Row(0.0, n[2].y - n[2].y * 1.0, n[2].z - n[2].y * g);
    assert p * n[2].z - p * g * n[2].y == p * (n[2].z - n[2].y * g);
    ZeroFactor(p, o[2].z);
  }

  lemma ThirdStep(o: Matrix)
    requires o[0].x == 1.0 && o[1].x == 0.0 && o[2].x == 0.0
    requires o[0].y == 0.0 && o[1].y == 1.0 && o[2].y == 0.0 && o[2].z != 0.0
    ensures Stepped(o, 2, 2) == Identity()
  {
    Quotients(o[2].z);
    var c := Normalized(o, 2, o[2].z);
    assert c[2] == Row(0.0, 0.0, 1.0);
    assert Reduced(c[0], c[0].z, c[2]) == Row(1.0, 0.0, 0.0);
    assert Reduced(c[1], c[1].z, c[2]) == Row(0.0, 1.0, 0.0);
  }

  // ----- Regular matrices are inverted

  lemma RegularIsInverted(m: Matrix)
    requires Regular(m)
    ensures Inverse(m).Inverted? && Product(Inverse(m).em, m) == Identity()
  {
    FirstStep(m);
    DirectStep(m, Identity(), 0, 0, 0);
    IdentityProduct(m);
    StepKeepsProduct(m, m, Identity(), 0, m[0].x, Column(Normalized(m, 0, m[0].x), 0));
    LastTwoSteps(m, Stepped(m, 0, 0), SteppedAlong(Identity(), m, 0, 0));
  }

  lemma LastTwoSteps(m: Matrix, n: Matrix, e: Matrix)
    requires Product(e, m) == n
    requires n[0].x == 1.0 && n[1].x == 0.0 && n[2].x == 0.0 && n[1].y != 0.0 && Lower(n) != 0.0
    ensures var r := Reduce(n, e, 1, 1); r.Inverted? && Product(r.em, m) == Identity()
  {
    LastPivots(n, e);
    var o, f := Stepped(n, 1, 1), SteppedAlong(e, n, 1, 1);
    StepKeepsProduct(m, n, e, 1, n[1].y, Column(Normalized(n, 1, n[1].y), 1));
    StepKeepsProduct(m, o, f, 2, o[2].z, Column(Normalized(o, 2, o[2].z), 2));
  }

  lemma LastPivots(n: Matrix, e: Matrix)
    requires n[0].x == 1.0 && n[1].x == 0.0 && n[2].x == 0.0 && n[1].y != 0.0 && Lower(n) != 0.0
    ensures var o := Stepped(n, 1, 1);
            && o[2].z != 0.0 && Stepped(o, 2, 2) == Identity()
            && Reduce(n, e, 1, 1) == Inverted(SteppedAlong(SteppedAlong(e, n, 1, 1), o, 2, 2))
  {
    SecondStep(n);
    var o := Stepped(n, 1, 1);
    DirectStep(n, e, 1, 1, 1);
    ThirdStep(o);
    DirectStep(o, SteppedAlong(e, n, 1, 1), 2, 2, 2);
  }

  lemma ZeroFactor(a: real, b: real)
    requires a != 0.0
    ensures a * b == 0.0 <==> b == 0.0
  {
  }

  lemma IdentityProduct(m: Matrix)
    ensures Product(Identity(), m) == m
  {
  }

  // ----- Others are not

  /** The first column of e repeats another one: k is 1 for the second, 2 for the third. */
  ghost predicate Repeats(e: Matrix, k: Index) {
    forall i :: 0 <= i < 3 ==> e[i].x == At(e[i], k)
  }

  lemma StepKeepsRepeats(em: Matrix, r: Index, lv: real, f: Row, k: Index)
    requires Repeats(em, k) && lv != 0.0
    ensures Repeats(Eliminated(Normalized(em, r, lv), r, f), k)
  {
    var d := Normalized(em, r, lv);
    assert forall i :: 0 <= i < 3 ==> d[i].x == At(d[i], k);
  }

  lemma {:induction false} ReduceKeepsRepeats(m: Matrix, em: Matrix, r: nat, lead: nat, k: Index)
    requires r <= 3 && lead >= 1 && Repeats(em, k)
    ensures Reduce(m, em, r, lead).Inverted? ==> Repeats(Reduce(m, em, r, lead).em, k)
    decreases 3 - r
  {
    if r < 3 && lead < 3 {
      var p := FindPivot(m, r, r, lead);
      PivotFound(m, r, r, lead);
      if p.Found? {
        if p.row == r {
          DirectStep(m, em, r, lead, p.lead);
          StepKeepsRepeats(em, r, At(m[r], p.lead), Column(Normalized(m, r, At(m[r], p.lead)), p.lead), k);
          ReduceKeepsRepeats(Stepped(m, r, p.lead), SteppedAlong(em, m, r, p.lead), r + 1, p.lead + 1, k);
        } else {
          SwapFails(m, em, r, lead);
        }
      }
    }
  }

  /** Two row vectors cannot combine to all three unit vectors. */
  lemma RankTwo(u0: real, w0: real, u1: real, w1: real, u2: real, w2: real, a: Row, b: Row)
    requires u0 * a.x + w0 * b.x == 1.0 && u0 * a.y + w0 * b.y == 0.0 && u0 * a.z + w0 * b.z == 0.0
    requires u1 * a.x + w1 * b.x == 0.0 && u1 * a.y + w1 * b.y == 1.0 && u1 * a.z + w1 * b.z == 0.0
    ensures u2 * a.z + w2 * b.z == 0.0
  {
    var det := u0 * w1 - u1 * w0;
    Binet(u0, w0, u1, w1, a, b);
    assert det != 0.0;
    Cramer(u0, w0, u1, w1, a.z, b.z);
    assert a.z == 0.0 && b.z == 0.0;
  }

  lemma Binet(u0: real, w0: real, u1: real, w1: real, a: Row, b: Row)
    ensures (u0 * a.x + w0 * b.x) * (u1 * a.y + w1 * b.y) - (u0 * a.y + w0 * b.y) * (u1 * a.x + w1 * b.x)
         == (u0 * w1 - u1 * w0) * (a.x * b.y - a.y * b.x)
  {
  }

  lemma Cramer(u0: real, w0: real, u1: real, w1: real, a: real, b: real)
    requires u0 * a + w0 * b == 0.0 && u1 * a + w1 * b == 0.0
    ensures (u0 * w1 - u1 * w0) * a == 0.0 && (u0 * w1 - u1 * w0) * b == 0.0
  {
    assert (u0 * w1 - u1 * w0) * a == w1 * (u0 * a + w0 * b) - w0 * (u1 * a + w1 * b);
    assert (u0 * w1 - u1 * w0) * b == u0 * (u1 * a + w1 * b) - u1 * (u0 * a + w0 * b);
  }

  lemma RepeatingRow(e: Row, m: Matrix, k: Index)
    requires k != 0 && e.x == At(e, k)
    ensures var (a, b, w) := (Added(m[0], m[k]), m[3 - k], At(e, 3 - k));
            Combine(e, m) == Row(e.x * a.x + w * b.x, e.x * a.y + w * b.y, e.x * a.z + w * b.z)
  {
    if k == 1 {
    } else {
    }
  }

  function Added(r: Row, s: Row): Row {
    Row(r.x + s.x, r.y + s.y, r.z + s.z)
  }

  lemma RepeatingIsNoInverse(e: Matrix, m: Matrix, k: Index)
    requires k != 0 && Repeats(e, k)
    ensures Product(e, m) != Identity()
  {
    var p := Product(e, m);
    RepeatingRow(e[0], m, k);
    RepeatingRow(e[1], m, k);
    RepeatingRow(e[2], m, k);
    if p[0] == Identity()[0] && p[1] == Identity()[1] {
      RankTwo(e[0].x, At(e[0], 3 - k), e[1].x, At(e[1], 3 - k), e[2].x, At(e[2], 3 - k), Added(m[0], m[k]), m[3 - k]);
      assert p[2].z == 0.0;
    }
  }

  /** Without a first pivot, the first row that has one is swapped in by its first element only. */
  lemma FirstSwapRepeats(m: Matrix)
    requires Minor1(m) == 0.0 && FindPivot(m, 0, 0, 0).Found? && FindPivot(m, 0, 0, 0).lead == 0
    ensures Inverse(m).Inverted? ==> Product(Inverse(m).em, m) != Identity()
  {
    PivotFound(m, 0, 0, 0);
    var k := FindPivot(m, 0, 0, 0).row;
    var a, b := FirstSwapped(m, k, 0), FirstSwapped(Identity(), k, 0);
    assert k != 0 && a[0].x == m[k].x != 0.0;
    assert Repeats(b, k);
    StepKeepsRepeats(b, 0, a[0].x, Column(Normalized(a, 0, a[0].x), 0), k);
    ReduceKeepsRepeats(Stepped(a, 0, 0), SteppedAlong(b, a, 0, 0), 1, 1, k);
    if Inverse(m).Inverted? {
      RepeatingIsNoInverse(Inverse(m).em, m, k);
    }
  }

  /** A zero column stays zero. */
  lemma ZeroColumnHasNoInverse(e: Matrix, m: Matrix)
    requires m[0].x == 0.0 && m[1].x == 0.0 && m[2].x == 0.0
    ensures Product(e, m) != Identity()
  {
    assert Product(e, m)[0].x == 0.0;
  }

  /** The second pivot is missing. */
  lemma NoSecondPivot(original: Matrix, n: Matrix, e: Matrix)
    requires Product(e, original) == n
    requires n[0].x == 1.0 && n[1].x == 0.0 && n[2].x == 0.0 && n[1].y == 0.0
    ensures var r := Reduce(n, e, 1, 1); r.Inverted? ==> Product(r.em, original) != Identity()
  {
    var p := FindPivot(n, 1, 1, 1);
    PivotFound(n, 1, 1, 1);
    if p.Found? && p.row != 1 {
      SwapFails(n, e, 1, 1);
    } else if p.Found? {
      assert p.lead == 2;
      DirectStep(n, e, 1, 1, 2);
      StepKeepsProduct(original, n, e, 1, n[1].z, Column(Normalized(n, 1, n[1].z), 2));
      assert Stepped(n, 1, 2)[1].y == 0.0 / n[1].z;
      Quotients(n[1].z);
    }
  }

  lemma IrregularIsNotInverted(m: Matrix)
    requires !Regular(m)
    ensures Inverse(m).Inverted? ==> Product(Inverse(m).em, m) != Identity()
  {
    if Minor1(m) == 0.0 {
      if m[1].x == 0.0 && m[2].x == 0.0 {
        if Inverse(m).Inverted? { ZeroColumnHasNoInverse(Inverse(m).em, m); }
      } else {
        FirstSwapRepeats(m);
      }
    } else {
      FirstStep(m);
      var n, e := Stepped(m, 0, 0), SteppedAlong(Identity(), m, 0, 0);
      DirectStep(m, Identity(), 0, 0, 0);
      IdentityProduct(m);
      StepKeepsProduct(m, m, Identity(), 0, m[0].x, Column(Normalized(m, 0, m[0].x), 0));
      if n[1].y == 0.0 {
        NoSecondPivot(m, n, e);
      } else {
        SecondStep(n);
        DirectStep(n, e, 1, 1, 1);
        NoThirdPivot(m, n, e);
      }
    }
  }

  lemma NoThirdPivot(m: Matrix, n: Matrix, e: Matrix)
    requires n[1].y != 0.0 && Stepped(n, 1, 1)[2].z == 0.0
    ensures Reduce(Stepped(n, 1, 1), SteppedAlong(e, n, 1, 1), 2, 2) == Singular
  {
  }

  /** Main result: the function delivers an inverse exactly for the matrices all of whose leading
      principal minors are non-zero. */
  lemma InvertsIffRegular(m: Matrix)
    ensures (Inverse(m).Inverted? && Product(Inverse(m).em, m) == Identity()) <==> Regular(m)
  {
    if Regular(m) {
      RegularIsInverted(m);
    } else {
      IrregularIsNotInverted(m);
    }
  }

  /** The calibration matrix the library itself uses is of this kind. */
  lemma SrgbCalibrationIsInverted()
    ensures var m := [Row(0.4123955889674142161, 0.3575834307637148171, 0.1804926473817015735),
                      Row(0.2125862307855955516, 0.7151703037034108499, 0.0722004986433362269),
                      Row(0.0192972154917469448, 0.1191838645808485318, 0.9504971251315797660)];
            Inverse(m).Inverted? && Product(Inverse(m).em, m) == Identity()
  {
    var m: Matrix := [Row(0.4123955889674142161, 0.3575834307637148171, 0.1804926473817015735),
                      Row(0.2125862307855955516, 0.7151703037034108499, 0.0722004986433362269),
                      Row(0.0192972154917469448, 0.1191838645808485318, 0.9504971251315797660)];
    assert Regular(m);
    RegularIsInverted(m);
  }

  /** An invertible matrix for which the function returns true with a matrix that is no inverse. */
  lemma SwappedRowsGiveWrongInverse()
    ensures var m := [Row(0.0, 1.0, 0.0), Row(1.0, 2.0, 0.0), Row(0.0, 0.0, 1.0)];
            && Determinant(m) != 0.0
            && Inverse(m).Inverted? && Product(Inverse(m).em, m) != Identity()
  {
    var m: Matrix := [Row(0.0, 1.0, 0.0), Row(1.0, 2.0, 0.0), Row(0.0, 0.0, 1.0)];
    var a: Matrix := [Row(1.0, 1.0, 0.0), Row(0.0, 2.0, 0.0), Row(0.0, 0.0, 1.0)];
    assert FindPivot(m, 0, 0, 0) == Found(1, 0) && FirstSwapped(m, 1, 0) == a;
    var e := SteppedAlong(FirstSwapped(Identity(), 1, 0), a, 0, 0);
    assert Stepped(a, 0, 0) == a;
    assert Inverse(m) == Reduce(a, e, 1, 1);
    LastPivots(a, e);
    FirstSwapRepeats(m);
  }
}
