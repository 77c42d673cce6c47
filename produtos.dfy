/** Catalogue records and the order the catalogue keeps them in. */
module Produtos {

  /** Capacity of the catalogue. */
  const MAX_PRODUTOS: int := 50

  /** Bounds of the C `int` the record identifier is stored in. */
  const INT_MIN: int := -0x8000_0000
  const INT_MAX: int := 0x7fff_ffff

  /** One catalogue record. Name, category and price are payload: no
      operation of the store looks at them. */
  datatype Produto = Produto(id: int, nome: string, categoria: string, preco: real)

  /** The record a zero-filled slot holds. */
  const PRODUTO_ZERADO: Produto := Produto(0, "", "", 0.0)

  /** The comparator the catalogue is sorted with, over mathematical
      integers: its sign is the order of the two identifiers. */
  function Comparar(a: Produto, b: Produto): (r: int)
    ensures r < 0 <==> a.id < b.id
    ensures r == 0 <==> a.id == b.id
    ensures r > 0 <==> a.id > b.id
  {
    a.id - b.id
  }

  /** Two's-complement wrap-around of a mathematical integer into a C `int`. */
  function Int32(x: int): (r: int)
    ensures INT_MIN <= r <= INT_MAX
    ensures (r - x) % 0x1_0000_0000 == 0
    ensures INT_MIN <= x <= INT_MAX ==> r == x
  {
    (x - INT_MIN) % 0x1_0000_0000 + INT_MIN
  }

  /** The comparator as the C code computes it: the difference of the two
      identifiers in 32-bit arithmetic. It agrees with Comparar only while the
      difference fits in an `int`. */
  function CompararComoEscrito(a: Produto, b: Produto): (r: int)
    requires INT_MIN <= a.id <= INT_MAX && INT_MIN <= b.id <= INT_MAX
    ensures INT_MIN <= r <= INT_MAX
    ensures INT_MIN <= a.id - b.id <= INT_MAX ==> r == Comparar(a, b)
  {
    Int32(a.id - b.id)
  }

  /** Two legal identifiers that the 32-bit comparator puts in the wrong order. */
  lemma CompararComoEscritoInverteOrdem()
    ensures var a, b := Produto(INT_MAX, "", "", 0.0), Produto(-1, "", "", 0.0);
            a.id > b.id && CompararComoEscrito(a, b) < 0
  {
    var a, b := Produto(INT_MAX, "", "", 0.0), Produto(-1, "", "", 0.0);
    assert a.id - b.id == 0x8000_0000;
    assert CompararComoEscrito(a, b) == INT_MIN;
  }

  /** Ascending by identifier. */
  predicate Ordenado(s: seq<Produto>) {
    forall i, j :: 0 <= i < j < |s| ==> s[i].id <= s[j].id
  }

  /** No two records share an identifier. */
  predicate IdsUnicos(s: seq<Produto>) {
    forall i, j :: 0 <= i < j < |s| ==> s[i].id != s[j].id
  }

  /** The identifiers present in a sequence of records. */
  function Ids(s: seq<Produto>): (r: set<int>) {
    set p | p in s :: p.id
  }

  /** The state of one insertion pass over positions `0..k`, with the moving
      record at `j`: every pair not involving `j` is in order, and the moving
      record is below everything to its right. */
  ghost predicate Afundando(s: seq<Produto>, j: int, k: int)
    requires 0 <= j <= k < |s|
  {
    && (forall a, b :: 0 <= a < b <= k && a != j && b != j ==> s[a].id <= s[b].id)
    && (forall b :: j < b <= k ==> s[j].id < s[b].id)
  }

  /** A pass starts from an ascending prefix `0..k-1` and the new record at
      `k`. */
  lemma AfundarInicio(s: seq<Produto>, k: int)
    requires 0 <= k < |s| && Ordenado(s[..k])
    ensures Afundando(s, k, k)
  {
    forall a, b | 0 <= a < b < k ensures s[a].id <= s[b].id {
      assert s[..k][a] == s[a] && s[..k][b] == s[b];
    }
  }

  /** Exchanging the moving record with a larger left neighbour moves it one
      step left and keeps the pass's state. */
  lemma AfundarPasso(s: seq<Produto>, j: int, k: int)
    requires 0 < j <= k < |s| && Afundando(s, j, k) && s[j - 1].id > s[j].id
    ensures Afundando(s[j - 1 := s[j]][j := s[j - 1]], j - 1, k)
  {
    var t := s[j - 1 := s[j]][j := s[j - 1]];
    forall a, b | 0 <= a < b <= k && a != j - 1 && b != j - 1 ensures t[a].id <= t[b].id {
      if b == j {
        assert t[b] == s[j - 1];
        if a < j - 1 {
          assert s[a].id <= s[j - 1].id;
        }
      }
    }
    forall b | j - 1 < b <= k ensures t[j - 1].id < t[b].id {
      if b == j {
        assert t[b] == s[j - 1];
      } else {
        assert t[b] == s[b];
      }
    }
  }

  /** A pass stops once the moving record is at the left end or not below
      its left neighbour; positions `0..k` are then ascending. */
  lemma AfundarFim(s: seq<Produto>, j: int, k: int)
    requires 0 <= j <= k < |s| && Afundando(s, j, k)
    requires j == 0 || s[j - 1].id <= s[j].id
    ensures Ordenado(s[..k + 1])
  {
    forall a, b | 0 <= a < b <= k ensures s[a].id <= s[b].id {
      if b == j && a < j - 1 {
        assert s[a].id <= s[j - 1].id;
      }
    }
  }

  /** Reference definition of "append, then re-sort": the record placed at
      its position in an ascending sequence. */
  function InserirOrdenado(s: seq<Produto>, p: Produto): (r: seq<Produto>)
    ensures |r| == |s| + 1
    ensures multiset(r) == multiset(s + [p])
  {
    if s == [] || p.id <= s[0].id then [p] + s
    else
      assert s == [s[0]] + s[1..];
      [s[0]] + InserirOrdenado(s[1..], p)
  }

  /** Two sequences holding the same records hold the same identifiers. */
  lemma IdsPorMultiset(s: seq<Produto>, t: seq<Produto>)
    requires multiset(s) == multiset(t)
    ensures Ids(s) == Ids(t)
  {
    forall x | x in Ids(s) ensures x in Ids(t) {
      var q :| q in s && q.id == x;
      assert q in multiset(t);
    }
    forall x | x in Ids(t) ensures x in Ids(s) {
      var q :| q in t && q.id == x;
      assert q in multiset(s);
    }
  }

  /** A record smaller than every record of an ascending, unique sequence
      can head it. */
  lemma Prefixar(x: Produto, t: seq<Produto>)
    requires Ordenado(t) && IdsUnicos(t)
    requires forall q :: q in t ==> x.id < q.id
    ensures Ordenado([x] + t) && IdsUnicos([x] + t)
  {
    var r := [x] + t;
    forall j | 0 < j < |r| ensures x.id < r[j].id {
      assert r[j] == t[j - 1];
      assert t[j - 1] in t;
    }
  }

  /** The records of an insertion are the old records and the new one. */
  lemma InserirOrdenadoMembro(s: seq<Produto>, p: Produto, q: Produto)
    requires q in InserirOrdenado(s, p)
    ensures q == p || q in s
  {
    assert q in multiset(InserirOrdenado(s, p));
    assert multiset(s + [p]) == multiset(s) + multiset{p};
  }

  /** Inserting a record adds exactly its identifier. */
  lemma InserirOrdenadoIds(s: seq<Produto>, p: Produto)
    ensures Ids(InserirOrdenado(s, p)) == Ids(s) + {p.id}
  {
    IdsPorMultiset(InserirOrdenado(s, p), s + [p]);
    forall x | x in Ids(s + [p]) ensures x in Ids(s) + {p.id} {
      var q :| q in s + [p] && q.id == x;
    }
  }

  /** The tail of an ascending, unique sequence is ascending and unique, its
      identifiers are among the sequence's, and all exceed the head's. */
  lemma Cauda(s: seq<Produto>)
    requires s != [] && Ordenado(s) && IdsUnicos(s)
    ensures Ordenado(s[1..]) && IdsUnicos(s[1..])
    ensures Ids(s[1..]) <= Ids(s)
    ensures forall q :: q in s[1..] ==> s[0].id < q.id
  {
    forall q | q in s[1..] ensures q in s && s[0].id < q.id {
      var k :| 0 <= k < |s[1..]| && s[1..][k] == q;
      assert s[k + 1] == q;
    }
  }

  /** Inserting a fresh identifier into an ascending sequence of unique
      identifiers keeps it ascending and unique. */
  lemma {:induction false} InserirOrdenadoPreserva(s: seq<Produto>, p: Produto)
    requires Ordenado(s) && IdsUnicos(s) && p.id !in Ids(s)
    ensures Ordenado(InserirOrdenado(s, p)) && IdsUnicos(InserirOrdenado(s, p))
  {
    if s == [] || p.id <= s[0].id {
      forall q | q in s ensures p.id < q.id {
        var k :| 0 <= k < |s| && s[k] == q;
        assert s[0].id <= s[k].id;
        assert q.id in Ids(s);
      }
      Prefixar(p, s);
    } else {
      var u := s[1..];
      var t := InserirOrdenado(u, p);
      assert InserirOrdenado(s, p) == [s[0]] + t;
      Cauda(s);
      InserirOrdenadoPreserva(u, p);
      forall q | q in t ensures s[0].id < q.id {
        InserirOrdenadoMembro(u, p, q);
      }
      Prefixar(s[0], t);
    }
  }

  /** Dropping the head of a sequence drops one copy of it from its records. */
  lemma MultisetCauda(s: seq<Produto>)
    requires s != []
    ensures multiset(s[1..]) == multiset(s) - multiset{s[0]}
  {
    assert s == [s[0]] + s[1..];
  }

  /** Two ascending arrangements of the same records, one of them with unique
      identifiers, start with the same record. */
  lemma CabecaIgual(t: seq<Produto>, u: seq<Produto>)
    requires t != [] && Ordenado(t) && Ordenado(u) && IdsUnicos(u)
    requires multiset(t) == multiset(u)
    ensures u != [] && t[0] == u[0]
  {
    assert t[0] in multiset(u);
    var m :| 0 <= m < |u| && u[m] == t[0];
    assert u[0] in multiset(t);
    var m2 :| 0 <= m2 < |t| && t[m2] == u[0];
    assert u[0].id <= u[m].id == t[0].id <= t[m2].id == u[0].id;
  }

  /** An ascending sequence of unique identifiers is the only ascending
      arrangement of its records: any sort of the same records yields it. */
  lemma {:induction false} OrdenacaoUnica(t: seq<Produto>, u: seq<Produto>)
    requires Ordenado(t) && Ordenado(u) && IdsUnicos(u)
    requires multiset(t) == multiset(u)
    ensures t == u
  {
    if t == [] {
      assert |u| == |multiset(u)| == 0;
    } else {
      CabecaIgual(t, u);
      MultisetCauda(t);
      MultisetCauda(u);
      OrdenacaoUnica(t[1..], u[1..]);
      assert t == [t[0]] + t[1..] && u == [u[0]] + u[1..];
    }
  }

  /** Two arrangements of the same records that agree from position `n` on
      hold the same records before `n`. */
  lemma MultisetPrefixo(a: seq<Produto>, b: seq<Produto>, n: int)
    requires 0 <= n <= |a| == |b| && multiset(a) == multiset(b) && a[n..] == b[n..]
    ensures multiset(a[..n]) == multiset(b[..n])
  {
    assert a == a[..n] + a[n..];
    assert b == b[..n] + b[n..];
    assert multiset(a[..n]) == multiset(a) - multiset(a[n..]);
    assert multiset(b[..n]) == multiset(b) - multiset(b[n..]);
  }

  /** The catalogue with the record at `index` taken out, the others keeping
      their relative order (shift-left compaction). */
  function Remover(s: seq<Produto>, index: int): (r: seq<Produto>)
    requires 0 <= index < |s|
    ensures |r| == |s| - 1
    ensures forall k :: 0 <= k < |r| ==> r[k] == if k < index then s[k] else s[k + 1]
  {
    s[..index] + s[index + 1..]
  }

  /** Compaction keeps the identifiers ascending and unique. */
  lemma RemoverPreserva(s: seq<Produto>, index: int)
    requires 0 <= index < |s|
    requires Ordenado(s) && IdsUnicos(s)
    ensures Ordenado(Remover(s, index)) && IdsUnicos(Remover(s, index))
  {
    var r := Remover(s, index);
    forall i, j | 0 <= i < j < |r| ensures r[i].id < r[j].id {
      var i', j' := if i < index then i else i + 1, if j < index then j else j + 1;
      assert r[i] == s[i'] && r[j] == s[j'] && i' < j';
    }
  }

  /** Compaction removes exactly the deleted record. */
  lemma RemoverMultiset(s: seq<Produto>, index: int)
    requires 0 <= index < |s|
    ensures multiset(Remover(s, index)) == multiset(s) - multiset{s[index]}
  {
    assert s == s[..index] + [s[index]] + s[index + 1..];
  }

  /** A record that stays after compaction was in the catalogue at a
      position other than `index`. */
  lemma RemoverOrigem(s: seq<Produto>, index: int, q: Produto) returns (k: int)
    requires 0 <= index < |s| && q in Remover(s, index)
    ensures 0 <= k < |s| && k != index && s[k] == q
  {
    var r := Remover(s, index);
    var j :| 0 <= j < |r| && r[j] == q;
    k := if j < index then j else j + 1;
  }

  /** When identifiers are unique, compaction removes exactly the identifier
      of the deleted record. */
  lemma RemoverIds(s: seq<Produto>, index: int)
    requires 0 <= index < |s| && IdsUnicos(s)
    ensures Ids(Remover(s, index)) == Ids(s) - {s[index].id}
  {
    var r := Remover(s, index);
    forall x | x in Ids(r) ensures x in Ids(s) && x != s[index].id {
      var q :| q in r && q.id == x;
      var k := RemoverOrigem(s, index, q);
      assert s[k] in s;
    }
    forall x | x in Ids(s) && x != s[index].id ensures x in Ids(r) {
      var q :| q in s && q.id == x;
      var k :| 0 <= k < |s| && s[k] == q;
      assert r[if k < index then k else k - 1] == q;
    }
  }
}
