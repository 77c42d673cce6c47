/** Recursive binary search over the live prefix of the catalogue. */
module Busca {
  import opened Produtos

  /** Index of a record with identifier `id` among positions
      `inicio..fim` (both inclusive) of the catalogue, or -1. The midpoint is
      the C quotient of `inicio + fim` by 2, which for the non-negative bounds
      used here is the floor. Each call shrinks `fim - inicio`, and an empty
      range (`inicio > fim`, e.g. `fim == -1` on an empty store) answers -1 at
      once. */
  function BuscaBinariaRecursiva(catalogo: seq<Produto>, id: int, inicio: int, fim: int): (r: int)
    requires 0 <= inicio && fim < |catalogo|
    ensures r == -1 || (inicio <= r <= fim && catalogo[r].id == id)
    decreases fim - inicio + 1
  {
    if inicio > fim then -1
    else
      var meio := (inicio + fim) / 2;
      if catalogo[meio].id == id then meio
      else if catalogo[meio].id < id then BuscaBinariaRecursiva(catalogo, id, meio + 1, fim)
      else BuscaBinariaRecursiva(catalogo, id, inicio, meio - 1)
  }

  /** The positions `inicio..fim` are ascending by identifier. */
  predicate OrdenadoEntre(catalogo: seq<Produto>, inicio: int, fim: int)
    requires 0 <= inicio && fim < |catalogo|
  {
    forall i, j :: inicio <= i < j <= fim ==> catalogo[i].id <= catalogo[j].id
  }

  /** On an ascending range the search finds every identifier the range
      holds: the half it discards never holds the one sought. */
  lemma {:induction false} BuscaEncontra(catalogo: seq<Produto>, id: int, inicio: int, fim: int, k: int)
    requires 0 <= inicio <= k <= fim < |catalogo|
    requires OrdenadoEntre(catalogo, inicio, fim)
    requires catalogo[k].id == id
    ensures BuscaBinariaRecursiva(catalogo, id, inicio, fim) != -1
    decreases fim - inicio + 1
  {
    var meio := (inicio + fim) / 2;
    if catalogo[meio].id < id {
      assert meio < k;
      assert BuscaBinariaRecursiva(catalogo, id, inicio, fim)
             == BuscaBinariaRecursiva(catalogo, id, meio + 1, fim);
      BuscaEncontra(catalogo, id, meio + 1, fim, k);
    } else if catalogo[meio].id > id {
      assert k < meio;
      assert BuscaBinariaRecursiva(catalogo, id, inicio, fim)
             == BuscaBinariaRecursiva(catalogo, id, inicio, meio - 1);
      BuscaEncontra(catalogo, id, inicio, meio - 1, k);
    }
  }

  /** On an ascending range the search misses only identifiers that are not
      in the range. */
  lemma BuscaBinariaCompleta(catalogo: seq<Produto>, id: int, inicio: int, fim: int)
    requires 0 <= inicio && fim < |catalogo|
    requires OrdenadoEntre(catalogo, inicio, fim)
    ensures BuscaBinariaRecursiva(catalogo, id, inicio, fim) == -1
            <==> forall k :: inicio <= k <= fim ==> catalogo[k].id != id
  {
    forall k | inicio <= k <= fim && catalogo[k].id == id
      ensures BuscaBinariaRecursiva(catalogo, id, inicio, fim) != -1
    {
      BuscaEncontra(catalogo, id, inicio, fim, k);
    }
  }

  /** Search over the whole live prefix `0..n-1`, as every caller issues it:
      on an ascending prefix, the answer is -1 exactly when the identifier is
      absent, and otherwise a position holding it. */
  lemma BuscaNoPrefixo(catalogo: seq<Produto>, n: int, id: int)
    requires 0 <= n <= |catalogo| && Ordenado(catalogo[..n])
    ensures var r := BuscaBinariaRecursiva(catalogo, id, 0, n - 1);
            (r == -1 <==> id !in Ids(catalogo[..n]))
            && (r != -1 ==> 0 <= r < n && catalogo[..n][r].id == id)
  {
    assert OrdenadoEntre(catalogo, 0, n - 1) by {
      forall i, j | 0 <= i < j <= n - 1 ensures catalogo[i].id <= catalogo[j].id {
        assert catalogo[..n][i] == catalogo[i] && catalogo[..n][j] == catalogo[j];
      }
    }
    BuscaBinariaCompleta(catalogo, id, 0, n - 1);
    if id in Ids(catalogo[..n]) {
      var q :| q in catalogo[..n] && q.id == id;
      var k :| 0 <= k < n && catalogo[..n][k] == q;
      assert catalogo[k].id == id;
    } else {
      forall k | 0 <= k <= n - 1 ensures catalogo[k].id != id {
        assert catalogo[..n][k] in catalogo[..n];
      }
    }
  }
}
