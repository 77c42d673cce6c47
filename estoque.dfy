/** The warehouse state: the occupancy grid and the sorted catalogue kept
    side by side, with the operations that change both. */
module Estoque {
  import opened Produtos
  import opened Grades
  import opened Busca

  /** Grid and catalogue agree: no live identifier is 0, every live
      identifier occupies exactly one cell, and every occupied cell holds a
      live identifier. */
  ghost predicate Consistente(g: Grade, s: seq<Produto>) {
    && 0 !in Ids(s)
    && (forall x :: x in Ids(s) ==> ContarGrade(g, x) == 1)
    && (forall i, j :: 0 <= i < |g| && 0 <= j < |g[i]| && g[i][j] != 0 ==> g[i][j] in Ids(s))
  }

  /** Everything that holds of the state after every completed operation. */
  ghost predicate EstadoValido(g: Grade, s: seq<Produto>) {
    && GradeValida(g)
    && |s| <= MAX_PRODUTOS
    && Ordenado(s)
    && IdsUnicos(s)
    && Consistente(g, s)
  }

  /** An identifier that is not live occupies no cell. */
  lemma AusenteNaGrade(g: Grade, s: seq<Produto>, x: int)
    requires Consistente(g, s) && x != 0 && x !in Ids(s)
    ensures ContarGrade(g, x) == 0
  {
    forall i | 0 <= i < |g| ensures x !in g[i] {
      forall j | 0 <= j < |g[i]| ensures g[i][j] != x {
        if g[i][j] != 0 {
          assert g[i][j] in Ids(s);
        }
      }
    }
  }

  /** A successful add (the cell was empty, the identifier is fresh and not
      0, the store not full) keeps the state valid; the new identifier ends
      up in exactly the chosen cell. */
  lemma AdicionarPreserva(g: Grade, s: seq<Produto>, l: int, c: int, p: Produto)
    requires EstadoValido(g, s) && |s| < MAX_PRODUTOS
    requires 0 <= l < LINHAS && 0 <= c < COLUNAS && g[l][c] == 0
    requires p.id != 0 && p.id !in Ids(s)
    ensures EstadoValido(Colocar(g, l, c, p.id), InserirOrdenado(s, p))
    ensures Colocar(g, l, c, p.id)[l][c] == p.id
  {
    var h := Colocar(g, l, c, p.id);
    var t := InserirOrdenado(s, p);
    InserirOrdenadoPreserva(s, p);
    InserirOrdenadoIds(s, p);
    AusenteNaGrade(g, s, p.id);
    forall x | x in Ids(t) ensures ContarGrade(h, x) == 1 {
      ContarGradeColocar(g, l, c, p.id, x);
    }
    forall i, j | 0 <= i < |h| && 0 <= j < |h[i]| && h[i][j] != 0 ensures h[i][j] in Ids(t) {
      if i != l || j != c {
        assert h[i][j] == g[i][j];
      }
    }
  }

  /** Whatever ascending arrangement the sort produces after a fresh record
      is appended, it is the ordered insertion of that record, and with a
      nonzero identifier placed in an empty cell the state stays valid. */
  lemma CadastroConclui(g: Grade, s: seq<Produto>, l: int, c: int, p: Produto, t: seq<Produto>)
    requires EstadoValido(g, s) && |s| < MAX_PRODUTOS
    requires 0 <= l < LINHAS && 0 <= c < COLUNAS && g[l][c] == 0
    requires p.id !in Ids(s)
    requires Ordenado(t) && multiset(t) == multiset(s + [p])
    ensures t == InserirOrdenado(s, p)
    ensures p.id != 0 ==> EstadoValido(Colocar(g, l, c, p.id), t)
  {
    InserirOrdenadoPreserva(s, p);
    OrdenacaoUnica(t, InserirOrdenado(s, p));
    if p.id != 0 {
      AdicionarPreserva(g, s, l, c, p);
    }
  }

  /** A confirmed removal of the record at `index` keeps the state valid,
      and its identifier disappears from both structures. */
  lemma RemoverPreservaEstado(g: Grade, s: seq<Produto>, index: int)
    requires EstadoValido(g, s) && 0 <= index < |s|
    ensures EstadoValido(Limpar(g, s[index].id), Remover(s, index))
    ensures s[index].id !in Ids(Remover(s, index))
    ensures ContarGrade(Limpar(g, s[index].id), s[index].id) == 0
  {
    var id := s[index].id;
    var h := Limpar(g, id);
    var t := Remover(s, index);
    assert s[index] in s;
    RemoverPreserva(s, index);
    RemoverIds(s, index);
    ContarGradeLimpar(g, id, id);
    forall x | x in Ids(t) ensures ContarGrade(h, x) == 1 {
      ContarGradeLimpar(g, id, x);
    }
    forall i, j | 0 <= i < |h| && 0 <= j < |h[i]| && h[i][j] != 0 ensures h[i][j] in Ids(t) {
      assert h[i][j] == LimparLinha(g[i], id)[j];
    }
  }

  /** The quotient of C integer division by a positive divisor: truncated
      toward zero. */
  function DivisaoC(a: int, b: int): (q: int)
    requires b > 0
    ensures a >= 0 ==> q * b <= a < q * b + b
    ensures a < 0 ==> q * b - b < a <= q * b
  {
    if a >= 0 then a / b else -((-a) / b)
  }

  /** Number of '#' marks in the 20-character capacity bar: the count scaled
      from 0..50 to 0..20, rounded down. */
  function Barras(qtdProdutos: int): (b: int)
    ensures 0 <= qtdProdutos <= MAX_PRODUTOS ==> 0 <= b <= 20
    ensures qtdProdutos >= 0 ==> b * MAX_PRODUTOS <= qtdProdutos * 20 < (b + 1) * MAX_PRODUTOS
    ensures 0 <= qtdProdutos <= MAX_PRODUTOS ==> (b == 20 <==> qtdProdutos == MAX_PRODUTOS)
  {
    DivisaoC(qtdProdutos * 20, MAX_PRODUTOS)
  }

  /** Outcome of an add, one case per check, in the order they are made. */
  datatype ResultadoCadastro =
    | Cadastrado
    | ArmazemLotado
    | CoordenadaInvalida
    | PosicaoOcupada(ocupante: int)
    | IdDuplicado

  /** Outcome of a removal. */
  datatype ResultadoRemocao =
    | EstoqueVazio
    | IdNaoEncontrado
    | Cancelado(produto: Produto)
    | Removido(produto: Produto)

  /** Outcome of a lookup. */
  datatype ResultadoConsulta = Encontrado(produto: Produto) | NaoEncontrado

  /** The whole in-memory state: the grid, the fixed-capacity catalogue
      whose first `qtdProdutos` slots are live, and the live count. */
  class SistemaEstoque {
    const mapa: array2<int>
    const catalogo: array<Produto>
    var qtdProdutos: int

    /** Shapes of the two buffers. */
    ghost predicate Formato() {
      && mapa.Length0 == LINHAS && mapa.Length1 == COLUNAS
      && catalogo.Length == MAX_PRODUTOS
    }

    /** Shapes of the two buffers and the count within capacity. */
    ghost predicate Valid()
      reads this
    {
      Formato() && 0 <= qtdProdutos <= MAX_PRODUTOS
    }

    /** The grid as a value. */
    ghost function Mapa(): (g: Grade)
      reads mapa
      requires Formato()
      ensures GradeValida(g)
    {
      seq(LINHAS, i requires 0 <= i < mapa.Length0 reads mapa =>
        seq(COLUNAS, j requires 0 <= j < mapa.Length1 reads mapa => mapa[i, j]))
    }

    /** The live prefix of the catalogue. */
    ghost function Catalogo(): (s: seq<Produto>)
      reads this, catalogo
      requires Valid()
      ensures |s| == qtdProdutos
    {
      catalogo[..qtdProdutos]
    }

    /** The state invariant on the current contents. */
    ghost predicate Invariante()
      reads this, mapa, catalogo
      requires Valid()
    {
      EstadoValido(Mapa(), Catalogo())
    }

    /** The zero-filled state the program starts from when no saved state
        can be read. */
    constructor InicializarSistema()
      ensures Valid() && fresh(mapa) && fresh(catalogo)
      ensures qtdProdutos == 0 && Mapa() == GRADE_VAZIA
      ensures forall k :: 0 <= k < catalogo.Length ==> catalogo[k] == PRODUTO_ZERADO
      ensures Invariante()
    {
      mapa := new int[LINHAS, COLUNAS]((_, _) => 0);
      catalogo := new Produto[MAX_PRODUTOS](_ => PRODUTO_ZERADO);
      qtdProdutos := 0;
      new;
      assert Mapa() == GRADE_VAZIA by {
        forall i | 0 <= i < LINHAS ensures Mapa()[i] == GRADE_VAZIA[i] { }
      }
    }

    /** Exchanges the records at positions `j - 1` and `j`. */
    method Trocar(j: int)
      requires Valid() && 0 < j < catalogo.Length
      modifies catalogo
      ensures catalogo[..] == old(catalogo[..])[j - 1 := old(catalogo[j])][j := old(catalogo[j - 1])]
      ensures multiset(catalogo[..]) == old(multiset(catalogo[..]))
    {
      catalogo[j - 1], catalogo[j] := catalogo[j], catalogo[j - 1];
    }

    /** One pass of insertion: moves the record at position `k` left past
        every larger identifier, so that positions `0..k` become ascending. */
    method Afundar(k: int)
      requires Valid() && 0 < k < catalogo.Length
      requires Ordenado(catalogo[..k])
      modifies catalogo
      ensures Ordenado(catalogo[..k + 1])
      ensures multiset(catalogo[..]) == old(multiset(catalogo[..]))
      ensures catalogo[k + 1..] == old(catalogo[k + 1..])
    {
      var j := k;
      AfundarInicio(catalogo[..], k);
      while j > 0 && Comparar(catalogo[j - 1], catalogo[j]) > 0
        invariant 0 <= j <= k
        invariant Afundando(catalogo[..], j, k)
        invariant multiset(catalogo[..]) == old(multiset(catalogo[..]))
        invariant forall m :: k < m < catalogo.Length ==> catalogo[m] == old(catalogo[m])
      {
        AfundarPasso(catalogo[..], j, k);
        Trocar(j);
        j := j - 1;
      }
      AfundarFim(catalogo[..], j, k);
    }

    /** Sorts the live prefix in place by identifier, leaving the unused
        tail alone. */
    method OrdenarCatalogo()
      requires Valid()
      modifies catalogo
      ensures Ordenado(Catalogo())
      ensures multiset(Catalogo()) == old(multiset(Catalogo()))
      ensures catalogo[qtdProdutos..] == old(catalogo[qtdProdutos..])
    {
      var n := qtdProdutos;
      if n > 1 {
        var k := 1;
        while k < n
          invariant 1 <= k <= n
          invariant Ordenado(catalogo[..k])
          invariant multiset(catalogo[..]) == old(multiset(catalogo[..]))
          invariant catalogo[n..] == old(catalogo[n..])
        {
          Afundar(k);
          k := k + 1;
        }
      }
      MultisetPrefixo(catalogo[..], old(catalogo[..]), n);
      assert catalogo[..][..n] == Catalogo() && old(catalogo[..])[..n] == old(Catalogo());
    }

    /** Appends `p` to the live prefix and writes its identifier into cell
        (l, c). */
    method Anexar(l: int, c: int, p: Produto)
      requires Valid() && qtdProdutos < MAX_PRODUTOS
      requires 0 <= l < LINHAS && 0 <= c < COLUNAS
      modifies this, mapa, catalogo
      ensures Valid()
      ensures qtdProdutos == old(qtdProdutos) + 1
      ensures Catalogo() == old(Catalogo()) + [p]
      ensures Mapa() == Colocar(old(Mapa()), l, c, p.id)
      ensures catalogo[qtdProdutos..] == old(catalogo[..])[qtdProdutos..]
    {
      ghost var g0 := Mapa();
      catalogo[qtdProdutos] := p;
      mapa[l, c] := p.id;
      qtdProdutos := qtdProdutos + 1;
      assert Mapa() == Colocar(g0, l, c, p.id) by {
        forall i | 0 <= i < LINHAS ensures Mapa()[i] == Colocar(g0, l, c, p.id)[i] { }
      }
    }

    /** The commit of a successful registration: the record goes into the
        first free slot, the identifier into cell (l, c), the count grows and
        the live prefix is re-sorted. */
    method Inserir(l: int, c: int, p: Produto)
      requires Valid() && qtdProdutos < MAX_PRODUTOS
      requires 0 <= l < LINHAS && 0 <= c < COLUNAS && mapa[l, c] == 0
      modifies this, mapa, catalogo
      ensures Valid()
      ensures qtdProdutos == old(qtdProdutos) + 1
      ensures Mapa() == Colocar(old(Mapa()), l, c, p.id)
      ensures Ordenado(Catalogo())
      ensures multiset(Catalogo()) == multiset(old(Catalogo()) + [p])
      ensures catalogo[qtdProdutos..] == old(catalogo[..])[qtdProdutos..]
      ensures old(Invariante()) && p.id !in Ids(old(Catalogo())) ==>
                && Catalogo() == InserirOrdenado(old(Catalogo()), p)
                && (p.id != 0 ==> Invariante())
    {
      ghost var g0, s0 := Mapa(), Catalogo();
      Anexar(l, c, p);
      OrdenarCatalogo();
      if old(Invariante()) && p.id !in Ids(s0) {
        CadastroConclui(g0, s0, l, c, p, Catalogo());
      }
    }

    /** Registers an item at cell (l, c). The checks run in this order and
        the first that fails returns with nothing changed: store full,
        coordinates out of range, cell occupied, identifier already present.
        On success the cell receives the identifier, the record is appended
        and the live prefix re-sorted. */
    method AdicionarProduto(l: int, c: int, id: int, nome: string, categoria: string, preco: real)
      returns (r: ResultadoCadastro)
      requires Valid()
      modifies this, mapa, catalogo
      ensures Valid()
      ensures old(qtdProdutos) >= MAX_PRODUTOS ==> r == ArmazemLotado
      ensures old(qtdProdutos) < MAX_PRODUTOS && !(0 <= l < LINHAS && 0 <= c < COLUNAS)
              ==> r == CoordenadaInvalida
      ensures old(qtdProdutos) < MAX_PRODUTOS && 0 <= l < LINHAS && 0 <= c < COLUNAS
              ==> (old(mapa[l, c]) != 0 ==> r == PosicaoOcupada(old(mapa[l, c])))
                  && (old(mapa[l, c]) == 0 ==>
                        (r == IdDuplicado <==>
                           BuscaBinariaRecursiva(old(catalogo[..]), id, 0, old(qtdProdutos) - 1) != -1))
      ensures && old(qtdProdutos) < MAX_PRODUTOS && 0 <= l < LINHAS && 0 <= c < COLUNAS
              && old(mapa[l, c]) == 0
              && BuscaBinariaRecursiva(old(catalogo[..]), id, 0, old(qtdProdutos) - 1) == -1
              ==> r == Cadastrado
      ensures r != Cadastrado ==>
                qtdProdutos == old(qtdProdutos) && Mapa() == old(Mapa()) && catalogo[..] == old(catalogo[..])
      ensures r == Cadastrado ==>
                && qtdProdutos == old(qtdProdutos) + 1
                && Mapa() == Colocar(old(Mapa()), l, c, id)
                && Ordenado(Catalogo())
                && multiset(Catalogo()) == multiset(old(Catalogo()) + [Produto(id, nome, categoria, preco)])
                && catalogo[qtdProdutos..] == old(catalogo[..])[qtdProdutos..]
      ensures old(Invariante()) && r == Cadastrado ==>
                Catalogo() == InserirOrdenado(old(Catalogo()), Produto(id, nome, categoria, preco))
      ensures old(Invariante()) && old(qtdProdutos) < MAX_PRODUTOS && 0 <= l < LINHAS && 0 <= c < COLUNAS
              ==> (old(mapa[l, c]) == 0 ==> (r == IdDuplicado <==> id in Ids(old(Catalogo()))))
      ensures old(Invariante()) && id != 0 ==> Invariante()
    {
      ghost var s0 := Catalogo();
      if qtdProdutos >= MAX_PRODUTOS {
        return ArmazemLotado;
      }
      if l < 0 || l >= LINHAS || c < 0 || c >= COLUNAS {
        return CoordenadaInvalida;
      }
      if mapa[l, c] != 0 {
        return PosicaoOcupada(mapa[l, c]);
      }
      if old(Invariante()) {
        BuscaNoPrefixo(catalogo[..], qtdProdutos, id);
        assert catalogo[..][..qtdProdutos] == s0;
      }
      if BuscaBinariaRecursiva(catalogo[..], id, 0, qtdProdutos - 1) != -1 {
        return IdDuplicado;
      }
      Inserir(l, c, Produto(id, nome, categoria, preco));
      r := Cadastrado;
    }

    /** Resets every grid cell holding `id` to 0 (the nested loop over rows
        and columns of the removal). */
    method LimparMapa(id: int)
      requires Valid()
      modifies mapa
      ensures Mapa() == Limpar(old(Mapa()), id)
    {
      for i := 0 to LINHAS
        invariant forall a, b :: 0 <= a < LINHAS && 0 <= b < COLUNAS ==>
                    mapa[a, b] == if a < i && old(mapa[a, b]) == id then 0 else old(mapa[a, b])
      {
        for j := 0 to COLUNAS
          invariant forall a, b :: 0 <= a < LINHAS && 0 <= b < COLUNAS ==>
                      mapa[a, b] == if (a < i || (a == i && b < j)) && old(mapa[a, b]) == id then 0 else old(mapa[a, b])
        {
          if mapa[i, j] == id {
            mapa[i, j] := 0;
          }
        }
      }
      assert Mapa() == Limpar(old(Mapa()), id) by {
        forall i | 0 <= i < LINHAS ensures Mapa()[i] == Limpar(old(Mapa()), id)[i] { }
      }
    }

    /** Closes the gap at `index` by copying each later live record one slot
        to the left (the shift-left loop of the removal); the last live slot
        keeps its old record. */
    method CompactarCatalogo(index: int)
      requires Valid() && 0 <= index < qtdProdutos
      modifies catalogo
      ensures catalogo[..qtdProdutos - 1] == Remover(old(catalogo[..qtdProdutos]), index)
      ensures catalogo[qtdProdutos - 1..] == old(catalogo[qtdProdutos - 1..])
    {
      ghost var antes := catalogo[..];
      var n := qtdProdutos;
      for i := index to n - 1
        invariant forall k :: 0 <= k < index || i <= k < catalogo.Length ==> catalogo[k] == antes[k]
        invariant forall k :: index <= k < i ==> catalogo[k] == antes[k + 1]
      {
        catalogo[i] := catalogo[i + 1];
      }
      assert catalogo[..n - 1] == Remover(antes[..n], index);
    }

    /** The commit of a confirmed removal of the record at `index`, whose
        identifier is `id`: clear the grid, compact the catalogue, decrement
        the count. */
    method ExcluirNaPosicao(index: int, id: int)
      requires Valid() && 0 <= index < qtdProdutos && catalogo[index].id == id
      modifies this, mapa, catalogo
      ensures Valid()
      ensures qtdProdutos == old(qtdProdutos) - 1
      ensures Mapa() == Limpar(old(Mapa()), id)
      ensures Catalogo() == Remover(old(Catalogo()), index)
      ensures catalogo[qtdProdutos..] == old(catalogo[..])[qtdProdutos..]
      ensures old(Invariante()) ==> Invariante()
      ensures old(Invariante()) ==>
                Ids(Catalogo()) == Ids(old(Catalogo())) - {id} && ContarGrade(Mapa(), id) == 0
    {
      ghost var g0, s0 := Mapa(), Catalogo();
      assert s0[index] == catalogo[index];
      LimparMapa(id);
      CompactarCatalogo(index);
      qtdProdutos := qtdProdutos - 1;
      if old(Invariante()) {
        RemoverPreservaEstado(g0, s0, index);
        RemoverIds(s0, index);
      }
    }

    /** Removes the item with identifier `id` once the operator confirms
        with 1. An empty store, an identifier the search does not find, or
        any other confirmation leave everything as it was. A confirmed
        removal resets every grid cell holding `id` to 0, shifts the records
        after the found position one slot to the left and decrements the
        count. */
    method RemoverProduto(id: int, confirmacao: int) returns (r: ResultadoRemocao)
      requires Valid()
      modifies this, mapa, catalogo
      ensures Valid()
      ensures old(qtdProdutos) == 0 ==> r == EstoqueVazio
      ensures old(qtdProdutos) > 0 ==>
                var index := BuscaBinariaRecursiva(old(catalogo[..]), id, 0, old(qtdProdutos) - 1);
                && (index == -1 ==> r == IdNaoEncontrado)
                && (index != -1 && confirmacao != 1 ==> r == Cancelado(old(catalogo[index])))
                && (index != -1 && confirmacao == 1 ==>
                      && r == Removido(old(catalogo[index]))
                      && qtdProdutos == old(qtdProdutos) - 1
                      && Mapa() == Limpar(old(Mapa()), id)
                      && Catalogo() == Remover(old(Catalogo()), index)
                      && catalogo[qtdProdutos..] == old(catalogo[..])[qtdProdutos..])
      ensures !r.Removido? ==>
                qtdProdutos == old(qtdProdutos) && Mapa() == old(Mapa()) && catalogo[..] == old(catalogo[..])
      ensures old(Invariante()) ==>
                (r.Removido? <==> id in Ids(old(Catalogo())) && confirmacao == 1)
      ensures old(Invariante()) && r.Removido? ==>
                Ids(Catalogo()) == Ids(old(Catalogo())) - {id} && ContarGrade(Mapa(), id) == 0
      ensures old(Invariante()) ==> Invariante()
    {
      if qtdProdutos == 0 {
        return EstoqueVazio;
      }
      assert catalogo[..][..qtdProdutos] == Catalogo();
      if old(Invariante()) {
        BuscaNoPrefixo(catalogo[..], qtdProdutos, id);
      }
      var index := BuscaBinariaRecursiva(catalogo[..], id, 0, qtdProdutos - 1);
      if index == -1 {
        return IdNaoEncontrado;
      }
      var p := catalogo[index];
      if confirmacao != 1 {
        return Cancelado(p);
      }
      ExcluirNaPosicao(index, id);
      r := Removido(p);
    }

    /** Looks an identifier up in the live prefix. */
    method ConsultarProduto(id: int) returns (r: ResultadoConsulta)
      requires Valid()
      ensures r.Encontrado? ==> r.produto in Catalogo() && r.produto.id == id
      ensures Ordenado(Catalogo()) ==> (r.NaoEncontrado? <==> id !in Ids(Catalogo()))
    {
      assert catalogo[..][..qtdProdutos] == Catalogo();
      if Ordenado(Catalogo()) {
        BuscaNoPrefixo(catalogo[..], qtdProdutos, id);
      }
      var index := BuscaBinariaRecursiva(catalogo[..], id, 0, qtdProdutos - 1);
      if index != -1 {
        assert catalogo[index] == Catalogo()[index];
        r := Encontrado(catalogo[index]);
      } else {
        r := NaoEncontrado;
      }
    }
  }
}
