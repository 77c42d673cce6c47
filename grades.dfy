/** The 5x5 occupancy grid: each cell holds the identifier of the item stored
    there, or 0 when it is empty. */
module Grades {

  const LINHAS: int := 5
  const COLUNAS: int := 5

  /** The grid as rows of cells. */
  type Grade = seq<seq<int>>

  /** Five rows of five cells. */
  predicate GradeValida(g: Grade) {
    |g| == LINHAS && forall i :: 0 <= i < |g| ==> |g[i]| == COLUNAS
  }

  /** The zero-filled grid. */
  const GRADE_VAZIA: Grade := seq(LINHAS, _ => seq(COLUNAS, _ => 0))

  /** Number of cells of a row that hold `x`. */
  function Contar(r: seq<int>, x: int): (n: nat)
    ensures n <= |r|
    ensures n == 0 <==> x !in r
  {
    if r == [] then 0
    else
      assert r == [r[0]] + r[1..];
      (if r[0] == x then 1 else 0) + Contar(r[1..], x)
  }

  /** Number of cells of the grid that hold `x`. */
  function ContarGrade(g: Grade, x: int): (n: nat)
    ensures n == 0 <==> forall i :: 0 <= i < |g| ==> x !in g[i]
  {
    if g == [] then 0
    else
      assert forall i :: 0 < i < |g| ==> g[i] == g[1..][i - 1];
      Contar(g[0], x) + ContarGrade(g[1..], x)
  }

  /** The grid with cell (l, c) set to `v`. */
  function Colocar(g: Grade, l: int, c: int, v: int): (h: Grade)
    requires 0 <= l < |g| && 0 <= c < |g[l]|
    ensures |h| == |g| && forall i :: 0 <= i < |g| ==> |h[i]| == |g[i]|
  {
    g[l := g[l][c := v]]
  }

  /** The row with every cell equal to `id` reset to 0. */
  function LimparLinha(r: seq<int>, id: int): (h: seq<int>)
    ensures |h| == |r|
  {
    seq(|r|, j requires 0 <= j < |r| => if r[j] == id then 0 else r[j])
  }

  /** The grid with every cell equal to `id` reset to 0. */
  function Limpar(g: Grade, id: int): (h: Grade)
    ensures |h| == |g| && forall i :: 0 <= i < |g| ==> |h[i]| == |g[i]|
  {
    seq(|g|, i requires 0 <= i < |g| => LimparLinha(g[i], id))
  }

  /** Setting one cell of a row moves one occurrence from its old value to
      the new one and leaves every other count alone. */
  lemma {:induction false} ContarColocarLinha(r: seq<int>, c: int, v: int, x: int)
    requires 0 <= c < |r|
    ensures Contar(r[c := v], x)
            == Contar(r, x) - (if r[c] == x then 1 else 0) + (if v == x then 1 else 0)
  {
    if c > 0 {
      assert r[c := v][1..] == r[1..][c - 1 := v];
      ContarColocarLinha(r[1..], c - 1, v, x);
    } else {
      assert r[c := v][1..] == r[1..];
    }
  }

  /** Setting one cell of the grid moves one occurrence from its old value to
      the new one and leaves every other count alone. */
  lemma {:induction false} ContarGradeColocar(g: Grade, l: int, c: int, v: int, x: int)
    requires 0 <= l < |g| && 0 <= c < |g[l]|
    ensures ContarGrade(Colocar(g, l, c, v), x)
            == ContarGrade(g, x) - (if g[l][c] == x then 1 else 0) + (if v == x then 1 else 0)
  {
    var h := Colocar(g, l, c, v);
    if l > 0 {
      assert h[1..] == Colocar(g[1..], l - 1, c, v);
      ContarGradeColocar(g[1..], l - 1, c, v, x);
    } else {
      assert h[1..] == g[1..];
      ContarColocarLinha(g[0], c, v, x);
    }
  }

  /** Clearing `id` from a row: its cells go to 0, no other value is
      touched; clearing 0 changes nothing. */
  lemma {:induction false} ContarLimparLinha(r: seq<int>, id: int, x: int)
    ensures id == 0 ==> LimparLinha(r, id) == r
    ensures id != 0 && x == id ==> Contar(LimparLinha(r, id), x) == 0
    ensures id != 0 && x == 0 ==> Contar(LimparLinha(r, id), x) == Contar(r, 0) + Contar(r, id)
    ensures x != id && x != 0 ==> Contar(LimparLinha(r, id), x) == Contar(r, x)
  {
    if r != [] {
      assert LimparLinha(r, id)[1..] == LimparLinha(r[1..], id);
      ContarLimparLinha(r[1..], id, x);
    }
  }

  /** Clearing `id` from the grid: its cells go to 0, no other value is
      touched; clearing 0 changes nothing. */
  lemma {:induction false} ContarGradeLimpar(g: Grade, id: int, x: int)
    ensures id == 0 ==> Limpar(g, id) == g
    ensures id != 0 && x == id ==> ContarGrade(Limpar(g, id), x) == 0
    ensures id != 0 && x == 0 ==> ContarGrade(Limpar(g, id), x) == ContarGrade(g, 0) + ContarGrade(g, id)
    ensures x != id && x != 0 ==> ContarGrade(Limpar(g, id), x) == ContarGrade(g, x)
  {
    if g != [] {
      assert Limpar(g, id)[1..] == Limpar(g[1..], id);
      ContarLimparLinha(g[0], id, x);
      ContarGradeLimpar(g[1..], id, x);
    }
  }
}
