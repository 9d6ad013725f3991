/** The multi-threaded program: one partition per first-row column, each with
    its own working array, all appending to one shared list. The threads are
    modelled as a loop over the partitions in ascending order. */
module NQueensParalelo {
  import opened Placements
  import opened SearchProperties
  import opened Solver
  import opened Simulation

  /** iniciarSimulacao with the number read from the console given as `entrada`:
      for n >= 1 the list holds the sequential search's placements (as a
      multiset, since the threads' appends may interleave in any order); for
      n <= 0 no partition runs and the list is empty; ExcecaoSemSolucao when the
      list is empty. */
  method IniciarSimulacao(s: State, entrada: int) returns (r: Outcome)
    modifies s
    ensures s.n == entrada && s.indiceAtual == old(s.indiceAtual)
    ensures fresh(s.solucoes) && s.solucoes.Valid()
    ensures entrada <= 0 ==> s.solucoes.Contents == []
    ensures entrada >= 1 ==> multiset(s.solucoes.Contents) == multiset(Solve(entrada))
    ensures r == if s.solucoes.Contents == [] then NoSolution else ShowBoard
  {
    s.n := entrada;
    var lista := new SolutionList();
    s.solucoes := lista;
    ghost var m: nat := if entrada < 0 then 0 else entrada;
    var i := 0;
    while i < entrada
      invariant 0 <= i <= m
      invariant s.solucoes == lista && s.n == entrada && s.indiceAtual == old(s.indiceAtual)
      invariant fresh(lista) && lista.Valid()
      invariant lista.Contents == Partitions(m, i)
    {
      // the thread body for partition i, on an array of its own
      var rainhas := new int[entrada];
      rainhas[0] := i;
      assert rainhas[..1] == [i];
      ResolverNQueens(rainhas, 1, entrada, lista);
      i := i + 1;
    }
    if entrada >= 1 {
      PartitionsCoverSolve(entrada);
    }
    r := if |lista.items| == 0 then NoSolution else ShowBoard;
  }
}
