/** The single-threaded program: one search from row 0 of a fresh n-element array. */
module NQueensSequencial {
  import opened Placements
  import opened SearchProperties
  import opened Solver
  import opened Simulation

  /** iniciarSimulacao with the number read from the console given as `entrada`:
      a fresh list filled with the sequential search's output (every valid
      placement of n queens, once each, in increasing lexicographic order; the
      single empty placement for n = 0), then ExcecaoSemSolucao if it is empty.
      indiceAtual keeps its value from any earlier run. */
  method IniciarSimulacao(s: State, entrada: int) returns (r: Outcome)
    modifies s
    ensures s.n == entrada && s.indiceAtual == old(s.indiceAtual)
    ensures fresh(s.solucoes) && s.solucoes.Valid()
    ensures s.solucoes.Contents == if entrada < 0 then [] else Solve(entrada)
    ensures r == if entrada < 0 then NegativeArraySize
                 else if s.solucoes.Contents == [] then NoSolution
                 else ShowBoard
  {
    s.n := entrada;
    var lista := new SolutionList();
    s.solucoes := lista;
    if entrada < 0 {
      return NegativeArraySize;
    }
    var rainhas := new int[entrada];
    ResolverNQueens(rainhas, 0, rainhas.Length, lista);
    r := if |lista.items| == 0 then NoSolution else ShowBoard;
  }

  /** indiceAtual survives a restart: a run with n = 4 (two solutions), a move
      to the second solution, then a run with n = 1 (one solution) leaves the
      index past the end of the new list. */
  method StaleIndexAfterRestart() returns (valido: bool)
    ensures !valido
  {
    var s := new State();
    var r := IniciarSimulacao(s, 4);
    FourQueensBoard(4);
    s.MostrarSolucao(1);
    r := IniciarSimulacao(s, 1);
    OneQueenBoard();
    valido := s.IndiceValido();
  }
}
