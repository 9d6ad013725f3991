# N-Queens backtracking search, three ways

This project models the core of the N-Rainhas programs. Each program enumerates every way
to place n non-attacking queens on an n×n board, by depth-first backtracking. There are
three drivers:

- `NQueensSequencial` searches once, from row 0.
- `NQueensParalelo` starts one thread per first-row column. Each thread owns its working
  array, and all threads append to one shared list.
- `ClienteDistribuidoNQueens` runs the same partitions one after another and sends the
  list to a server.

The three files hold textually identical copies of `posicaoSegura` and `mostrarSolucao`.
Their copies of `resolverNQueens` differ in two ways. The bound of the column loop is the
parameter `n` in the parallel copy and `rainhas.length` in the others. The parallel copy
appends through the `synchronized` method `adicionarSolucao` to the shared static list; the
others call `solucoes.add(rainhas.clone())` on the list passed as their third parameter.
Each is modelled once. `Solver.ResolverNQueens` takes the loop bound as its parameter
`largura`. The sequential and client drivers pass the array length; the parallel driver
passes `n`, as the source does. Both kinds of append add one clone of the working array at
the end of the list, so `Solver.ResolverNQueens` uses `SolutionList.AdicionarSolucao` for
both and takes the list as a parameter.

Modules:

- `Placements` is the specification.
  - `NoAttack`, `InRange` and `ValidPlacement` define a valid placement.
  - `Safe` is what `posicaoSegura` decides.
  - `Sols` and `Cols` give the list the search emits from a prefix, in emission order.
  - `Solve(n)` is the sequential search. `Partitions(n, k)` is the output of partitions
    0 .. k-1.
  - `LexLess` and `StrictlyIncreasing` define the ordering.
- `SearchProperties` proves the search sound, complete and strictly lexicographically
  increasing. It also proves the decomposition law and the results for boards of size 0 to 4.
- `Solver` holds the imperative search.
  - `SolutionList` is the `List<int[]>`. Its elements are real arrays, each a fresh clone,
    and its ghost `Contents` is what they hold.
  - `PosicaoSegura` is a read-only loop over the working array.
  - `ResolverNQueens` is the recursive method that writes `rainhas[linha]` in place. It is
    proved to append exactly `Sols(rainhas.Length, largura, rainhas[..linha])`.
- `Simulation` holds the static fields every program has (`n`, `solucoes`, `indiceAtual`),
  the outcomes of a run and `MostrarSolucao`.
- `NQueensSequencial`, `NQueensParalelo` and `ClienteDistribuidoNQueens` each model their
  file's `iniciarSimulacao`. The number read from the console is a parameter.

Behaviour the model keeps from the code:

- **Rows are not reset.** The search never resets `rainhas[linha]` after the recursive
  call; the next candidate simply overwrites it. `ResolverNQueens` promises only that rows
  `0 .. linha-1` are unchanged. `PosicaoSegura` reads only those rows.
- **Negative n.** With n < 0, the sequential program fails at `new int[n]`. The
  partitioned programs run no partition and report no solution.
- **n = 0.** The sequential program yields one empty placement. The partitioned programs
  yield none.
- **indiceAtual survives a restart.** No driver resets `indiceAtual`, so it keeps its
  value into the next simulation. After a restart with fewer solutions, the index can point
  past the end of the new list. The drivers' contracts state that the index is unchanged,
  and `NQueensSequencial.StaleIndexAfterRestart` shows such a case (n = 4, index 1, then n = 1).
- **The client connects before it searches.** It opens its connection (line 41) before the
  search. If the server cannot be reached, nothing is computed and the previous list stays.

Further points about the code:

- **No undo step.** The code never undoes a placement; the next candidate overwrites it.
- **Any integer n.** The code accepts any integer n, with the outcomes above.
- **Java serialization.** The client sends its list with Java object serialization; there
  is no wire format or decode-error path of its own.

## Model

| member | source | states |
|---|---|---|
| `Solver.PosicaoSegura` | NQueensSequencial.java:67-74 | true exactly when `Safe` holds of rows 0 .. linha-1: no queen on a row i < linha has the same column or sits on a diagonal with it (distance linha - i); reads only those rows and changes nothing |
| `Solver.ResolverNQueens` | NQueensParalelo.java:75-85 | appends exactly the search's output from the current prefix, each element a fresh clone; rows 0 .. linha-1 unchanged; earlier list elements and the arrays they hold untouched; no stored element is the working array |
| `Solver.SolutionList.AdicionarSolucao` | NQueensParalelo.java:70-72 | appends one fresh copy of the array's current contents and changes no earlier element |
| `Solver.SolutionList.constructor` | NQueensSequencial.java:29 | a new list is empty |
| `Solver.SolutionList.Values` | ClienteDistribuidoNQueens.java:70 | the placements the stored arrays hold, in list order: the value written to the server |
| `Simulation.State.constructor` | NQueensSequencial.java:10-11 | indiceAtual starts at 0 and there are no solutions yet |
| `Simulation.State.MostrarSolucao` | NQueensSequencial.java:136-141 | moves indiceAtual to indice only when 0 <= indice < size of the list, otherwise changes nothing; an in-range index stays in range |
| `NQueensSequencial.IniciarSimulacao` | NQueensSequencial.java:21-50 | the list is the search from row 0 of a fresh n-element array (all valid placements, once each, in order; [[]] for n = 0); NegativeArraySize for n < 0, ExcecaoSemSolucao exactly when the list is empty; indiceAtual unchanged |
| `NQueensParalelo.IniciarSimulacao` | NQueensParalelo.java:21-67 | for n >= 1 the merged list has the same multiset of placements as the sequential search; for n <= 0 it is empty; ExcecaoSemSolucao exactly when the list is empty |
| `ClienteDistribuidoNQueens.IniciarSimulacao` | ClienteDistribuidoNQueens.java:31-76 | unreachable server: connection failure before any search, old list kept; otherwise the list equals the sequential search element for element for n >= 1 and is empty for n <= 0; an empty list raises ExcecaoSemSolucao and sends nothing; a non-empty list is sent when the connection carries it |
| `NQueensSequencial.StaleIndexAfterRestart` | NQueensSequencial.java:10-30 | after a run with n = 4, a move to index 1 and a run with n = 1, indiceAtual is no longer a position of the list |
| `SearchProperties.SafeExtends` | NQueensSequencial.java:58-59 | for an attack-free prefix, a column is safe exactly when appending it keeps the prefix attack-free |
| `SearchProperties.SolsSound` | NQueensSequencial.java:53-64 | every placement the search emits from prefix p has the array's length, starts with p, uses columns in [0, bound) after p and is attack-free when p is |
| `SearchProperties.ColsSound` | NQueensSequencial.java:57-62 | after the column loop has tried columns 0 .. c-1, every emitted placement has one of those columns on the current row |
| `SearchProperties.ColsIncludes` | NQueensSequencial.java:57-61 | a safe column's whole subtree is emitted once the loop has passed that column |
| `SearchProperties.SolsComplete` | NQueensSequencial.java:53-64 | every attack-free placement of the right length that extends the prefix, with columns in range, is emitted |
| `SearchProperties.SortedConcat` | NQueensSequencial.java:57-60 | appending a later subtree's output after an earlier one's keeps the list strictly increasing |
| `SearchProperties.SolsSorted` | NQueensSequencial.java:57-60 | the search's output is strictly increasing in lexicographic order |
| `SearchProperties.ColsSorted` | NQueensSequencial.java:57-62 | the column loop's output is strictly increasing, since columns are tried in ascending order |
| `SearchProperties.IncreasingDistinct` | ClienteDistribuidoNQueens.java:48-52 | a strictly increasing list holds no placement twice |
| `SearchProperties.SolveCorrect` | NQueensSequencial.java:29-30 | the search from row 0 emits r exactly when r is a valid placement of n queens, in strictly increasing order, with no duplicates |
| `SearchProperties.PartitionCorrect` | NQueensParalelo.java:33-39 | partition i emits exactly the valid placements whose row-0 queen is in column i, in strictly increasing order |
| `SearchProperties.ColsArePartitions` | ClienteDistribuidoNQueens.java:48-52 | row 0 is always safe, so the row-0 column loop emits exactly what partitions 0 .. k-1 emit, in that order |
| `SearchProperties.PartitionsCoverSolve` | ClienteDistribuidoNQueens.java:48-52 | for n >= 1 the partitions' outputs concatenated in ascending order equal the sequential output, hence also as multisets |
| `SearchProperties.ZeroBoardPartitions` | NQueensParalelo.java:33 | for n = 0 the partitioned programs produce nothing, the sequential one the empty placement |
| `SearchProperties.OneQueenBoard` | NQueensSequencial.java:30 | n = 1 yields exactly [[0]] |
| `SearchProperties.TwoQueensAttack` | NQueensSequencial.java:67-74 | every placement of two queens on a 2×2 board has an attack |
| `SearchProperties.TwoQueensBoard` | NQueensSequencial.java:40-42 | n = 2 yields the empty list, so ExcecaoSemSolucao is raised |
| `SearchProperties.ThreeQueensAttack` | NQueensParalelo.java:89-96 | every placement of three queens on a 3×3 board has an attack |
| `SearchProperties.ThreeQueensBoard` | NQueensParalelo.java:57-59 | n = 3 yields the empty list, so ExcecaoSemSolucao is raised |
| `SearchProperties.FourQueensPlacements` | ClienteDistribuidoNQueens.java:93-100 | [1, 3, 0, 2] and [2, 0, 3, 1] are the only valid placements of four queens |
| `SearchProperties.FourQueensBoard` | ClienteDistribuidoNQueens.java:79-90 | n = 4 yields exactly [[1, 3, 0, 2], [2, 0, 3, 1]], in that order |

## Left out

- The Swing interface is not modelled: the window, the board drawing, button listeners,
  dialogs and the `perguntarNovaSimulacao` / `System.exit` restart loop only render and
  ask the user. `mostrarSolucao`'s `repaint` is dropped; its index update is modelled.
- The `Scanner` prompt, `System.nanoTime` timing and `println` output are console I/O.
  The number typed is the parameter `entrada`.
- Threads are not modelled. `Thread` start and join, and the lock on `adicionarSolucao`,
  are replaced by a loop over the partitions in ascending order. That order is one
  schedule the threads can produce. For that reason `NQueensParalelo.IniciarSimulacao`
  states the list only as a multiset.
- Sockets and Java object serialization (`writeObject`) are foreign library calls. The
  socket's behaviour is the parameter `rede`. The value sent is the list of placements.
  A partial write before a failure is not modelled.
- The client leaves its socket open when it raises ExcecaoSemSolucao (line 63 comes before
  the close at lines 71-72). The model has no resources, so it does not show this leak.
- `ServidorDistribuidoNQueens.java` is not part of this model. Its accept loop,
  per-connection threads and `readObject` are network and concurrency, and its only logic
  appends what it receives to a list.
- Java's 32-bit `int` arithmetic is not modelled. Columns and rows stay below n, and n is
  at most the length of an array that fits in memory. So `rainhas[i] - coluna`,
  `i - linha` and `Math.abs` never overflow. Integers here are unbounded.
- Before the first run, Java's static `solucoes` is `null`. The model starts with an empty
  list instead, because no method reads it before a run assigns it.
- Solution counts for n >= 5 (10, 4, 40, 92, ...) are not proved. Enumerating those
  boards is too costly for the verifier.
