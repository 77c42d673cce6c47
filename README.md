# Gerenciador de Estoque — a verified model of the warehouse core

The program keeps a small warehouse in memory (`SistemaEstoque`), made of three parts:

- **The occupancy grid `mapa`.** It has 5×5 cells. Each cell holds the identifier of the item stored there, or 0 when it is empty.
- **The catalogue `catalogo`.** It has room for 50 `Produto` records (identifier, name, category, price). It is kept sorted by identifier so that a recursive binary search can find items.
- **The live count `qtdProdutos`.** Only the first `qtdProdutos` slots of the catalogue are in use.

The operations are:

- **Registering an item.** Four checks run in a fixed order, and the first failure returns with nothing changed. The checks are: store full, coordinates out of range, cell occupied, identifier already present. On success the record is written into the first free slot, the identifier into the cell, the count is incremented and the live prefix is re-sorted.
- **Removing an item.** The item is found by binary search. After a confirmation equal to 1, every grid cell holding that identifier is reset to 0. The records after the found slot are shifted one slot to the left, and the count is decremented.
- **Looking an item up.**
- **Drawing the capacity bar.**
- **The zero-filled start state.**

The Dafny project has four modules:

- `Produtos` (`produtos.dfy`) contains:
  - the record and the comparator;
  - the predicates "ascending" and "unique identifiers";
  - `InserirOrdenado`, a reference definition of "append, then sort";
  - `OrdenacaoUnica`, the fact that an ascending arrangement of unique records is unique;
  - `Remover`, the shift-left compaction as a function on sequences, with its lemmas;
  - the lemmas of one insertion pass.
- `Busca` (`busca.dfy`) contains the recursive binary search as a pure function over the catalogue contents, with its soundness and completeness lemmas.
- `Grades` (`grades.dfy`) contains the grid as rows of cells, setting one cell, clearing an identifier, and cell counting with the lemmas that track counts through both updates.
- `Estoque` (`estoque.dfy`) contains:
  - the state invariant (`EstadoValido`): ascending and unique catalogue, count ≤ 50, every live identifier in exactly one cell, every non-empty cell holding a live identifier;
  - the lemmas that registration and removal preserve it;
  - the capacity-bar arithmetic;
  - the class `SistemaEstoque`. It holds the `array2<int>` grid, the `array<Produto>` catalogue and the count, and its methods change them in place.

The C `qsort` call is modelled by an in-place swap-based insertion sort (`Trocar`/`Afundar`/`OrdenarCatalogo`) using the comparator over mathematical integers (`Comparar`) rather than the 32-bit subtraction. When the state invariant holds, its result is proved equal to `InserirOrdenado` of the old catalogue and the new record. So any correct sort, `qsort` included, would leave the same catalogue.

## Model

| member | source | states |
|---|---|---|
| Produtos.Comparar | GerenciadorDeEstoque.c:143-146 | the comparator's sign is the order of the two identifiers (negative, zero, positive exactly when less, equal, greater) |
| Produtos.CompararComoEscrito | GerenciadorDeEstoque.c:143-146 | the comparator as written, `a->id - b->id` in 32-bit arithmetic: always an `int`, and equal to `Comparar` whenever the difference fits in an `int` |
| Produtos.CompararComoEscritoInverteOrdem | GerenciadorDeEstoque.c:145 | for identifiers `INT_MAX` and `-1` the 32-bit difference is negative although the first identifier is larger |
| Produtos.InserirOrdenado | GerenciadorDeEstoque.c:149-155 | reference result of appending a record and re-sorting: one record longer, and holding exactly the old records plus the new one |
| Produtos.InserirOrdenadoPreserva | GerenciadorDeEstoque.c:149-155 | inserting an identifier not yet present keeps the catalogue ascending with unique identifiers |
| Produtos.InserirOrdenadoIds | GerenciadorDeEstoque.c:280-297 | a registration adds exactly the new identifier to the set of live identifiers |
| Produtos.OrdenacaoUnica | GerenciadorDeEstoque.c:149-155 | any ascending arrangement of the same records as an ascending, unique sequence equals it, so the re-sort's result does not depend on the sorting algorithm |
| Produtos.AfundarPasso | GerenciadorDeEstoque.c:153 | one exchange of the insertion pass keeps the pass's ordering state |
| Produtos.AfundarFim | GerenciadorDeEstoque.c:153 | when the insertion pass stops, the prefix up to the new record is ascending |
| Produtos.Remover | GerenciadorDeEstoque.c:342-345 | shift-left compaction: one record shorter, positions before `index` unchanged, later positions taken from one slot to the right |
| Produtos.RemoverPreserva | GerenciadorDeEstoque.c:342-347 | compaction keeps the catalogue ascending with unique identifiers |
| Produtos.RemoverMultiset | GerenciadorDeEstoque.c:342-347 | compaction removes exactly the record at `index` and keeps all others |
| Produtos.RemoverIds | GerenciadorDeEstoque.c:342-347 | with unique identifiers, compaction removes exactly the deleted identifier from the set of live identifiers |
| Busca.BuscaBinariaRecursiva | GerenciadorDeEstoque.c:160-175 | the search terminates (the range `fim - inicio` shrinks on every call), returns -1 at once on an empty range, and a result other than -1 is a position within `inicio..fim` that holds the identifier |
| Busca.BuscaEncontra | GerenciadorDeEstoque.c:165-174 | on an ascending range, the search never misses an identifier the range holds |
| Busca.BuscaBinariaCompleta | GerenciadorDeEstoque.c:165-174 | on an ascending range, the search returns -1 exactly when no record in the range has the identifier |
| Busca.BuscaNoPrefixo | GerenciadorDeEstoque.c:273 | the search over the live prefix `0..qtdProdutos-1`, as registration, removal and lookup issue it: on an ascending prefix, -1 exactly when the identifier is not live, otherwise a live position holding it |
| Grades.Colocar | GerenciadorDeEstoque.c:294 | writing one grid cell keeps the grid's shape |
| Grades.ContarGradeColocar | GerenciadorDeEstoque.c:294 | writing one cell moves one occurrence from the cell's old value to the new one and leaves every other value's count unchanged |
| Grades.Limpar | GerenciadorDeEstoque.c:331-338 | clearing an identifier from the grid keeps the grid's shape |
| Grades.ContarGradeLimpar | GerenciadorDeEstoque.c:331-338 | clearing a nonzero identifier leaves no cell holding it, turns its cells into empty ones and leaves every other value's count unchanged; clearing 0 changes nothing |
| Estoque.AdicionarPreserva | GerenciadorDeEstoque.c:293-295 | a registration with a nonzero, fresh identifier into an empty cell of a valid, non-full state gives a valid state, with the identifier in the chosen cell |
| Estoque.CadastroConclui | GerenciadorDeEstoque.c:280-297 | whatever ascending arrangement the re-sort produces after a fresh record is appended, it is the ordered insertion of that record; with a nonzero identifier the state stays valid |
| Estoque.RemoverPreservaEstado | GerenciadorDeEstoque.c:331-347 | clearing the removed identifier from the grid and compacting the catalogue keeps a valid state valid, and the identifier is then in neither structure |
| Estoque.DivisaoC | GerenciadorDeEstoque.c:204 | C integer division by a positive divisor truncates toward zero: the floor for non-negative dividends, the ceiling for negative ones |
| Estoque.Barras | GerenciadorDeEstoque.c:202-204 | number of `#` marks in the capacity bar: within 0..20 for a count within 0..50, equal to 20 exactly at 50, and for a non-negative count the rounded-down value of `qtdProdutos * 20 / 50` |
| Estoque.SistemaEstoque.InicializarSistema | GerenciadorDeEstoque.c:106-123 | the zero-filled state (no saved state read): count 0, every cell 0, every catalogue slot a zero record, and the state invariant holds |
| Estoque.SistemaEstoque.Trocar | GerenciadorDeEstoque.c:153 | exchanging two neighbouring catalogue slots keeps the same records |
| Estoque.SistemaEstoque.Afundar | GerenciadorDeEstoque.c:149-155 | one insertion pass turns an ascending prefix `0..k-1` into an ascending prefix `0..k`, keeping the same records and leaving later slots alone |
| Estoque.SistemaEstoque.OrdenarCatalogo | GerenciadorDeEstoque.c:149-155 | the re-sort leaves the live prefix ascending, holding the same records, with the unused slots unchanged |
| Estoque.SistemaEstoque.Anexar | GerenciadorDeEstoque.c:280-295 | the commit writes the record into slot `qtdProdutos` and the identifier into cell (l, c), and increments the count, changing no other cell or live slot |
| Estoque.SistemaEstoque.Inserir | GerenciadorDeEstoque.c:280-297 | commit followed by re-sort: one more live record, the cell set, the live prefix ascending and holding the old records plus the new one; with the invariant and a fresh identifier, the result is the ordered insertion and the invariant is kept when the identifier is nonzero |
| Estoque.SistemaEstoque.AdicionarProduto | GerenciadorDeEstoque.c:239-300 | the four checks in their order and their outcomes, including a registration exactly when all four pass, and the occupant's identifier on a collision; nothing changes on any failure; a success changes exactly the chosen cell and adds the record in order; with the invariant, a duplicate is reported exactly when the identifier is live, and the invariant is kept for nonzero identifiers |
| Estoque.SistemaEstoque.LimparMapa | GerenciadorDeEstoque.c:331-338 | the nested loop resets exactly the cells holding the identifier to 0 and leaves every other cell unchanged |
| Estoque.SistemaEstoque.CompactarCatalogo | GerenciadorDeEstoque.c:342-345 | the shift-left loop makes the first `qtdProdutos-1` slots equal to the old live prefix with the record at `index` deleted, in order; the last live slot and the unused slots keep their records |
| Estoque.SistemaEstoque.ExcluirNaPosicao | GerenciadorDeEstoque.c:328-348 | a confirmed removal clears the grid, compacts the catalogue and decrements the count; it keeps the invariant, and the identifier is then neither live nor in any cell |
| Estoque.SistemaEstoque.RemoverProduto | GerenciadorDeEstoque.c:302-355 | an empty store, an identifier the search does not find, or a confirmation other than 1 changes nothing and reports which. A confirmed removal clears the identifier from the grid, deletes the found record keeping the others' order, and decrements the count. With the invariant, a removal happens exactly when the identifier is live and the confirmation is 1, and the invariant is kept |
| Estoque.SistemaEstoque.ConsultarProduto | GerenciadorDeEstoque.c:357-380 | a found record is live and has the identifier; on an ascending catalogue the lookup reports "not found" exactly when the identifier is not live |

## Left out

- Console output and prompting are not modelled: the menu loop, screen clearing, logo, titles, tables, the drawn grid and the drawn bar, and pauses. Only the number of bar marks is modelled.
- `scanf`/`fgets` input and the newline stripping in `lerTexto` are not modelled. Row, column, identifier, name, category, price and the confirmation flag are method parameters. The name and category are carried as unbounded strings, not truncated to the 40 and 20 byte buffers.
- Persistence is not modelled. `salvarDados` and the loading branch of `inicializarSistema` copy the raw struct image to and from a file whose layout is platform-defined. The constructor models the zero-filled state used when no file can be read.
- `qsort` is a library call. It is replaced by a verified in-place insertion sort using the comparator over mathematical integers (`Comparar`), not the 32-bit subtraction. Only the resulting catalogue is claimed to agree, not the sequence of intermediate array states.
- The price is a `float` in the source and `real` here. It is carried as payload and never computed with.
- Identifiers are mathematical integers in the catalogue and the grid. The source's 32-bit comparator overflow is captured separately (see Findings).
- Estoque.Barras: does not model a 32-bit overflow of `qtdProdutos * 20`, because that needs a count above 100 million and the count stays within 0..50 in every reachable state.
- Estoque.SistemaEstoque.AdicionarProduto: does not claim the invariant after registering identifier 0. The source never rejects identifier 0, although 0 also marks an empty cell, so a registered identifier 0 leaves no trace in the grid and breaks the invariant.
- Estoque.SistemaEstoque.ConsultarProduto: the "not found" case is characterised only for an ascending catalogue, because on an unsorted one binary search can miss live items.

## Findings

| source | as written | input that shows it | evidently intended | confidence | as-written member | corrected member |
|---|---|---|---|---|---|---|
| GerenciadorDeEstoque.c:145 | the comparator returns `a->id - b->id` in 32-bit `int` arithmetic, which overflows for identifiers far apart | identifiers `2147483647` and `-1`: the subtraction overflows, which is undefined behaviour in ISO C; on the usual two's-complement builds it wraps to `-2147483648`, so the larger identifier sorts first | a comparator whose sign is the order of the identifiers, e.g. `(a > b) - (a < b)` | not executed | Produtos.CompararComoEscritoInverteOrdem | Produtos.Comparar |
