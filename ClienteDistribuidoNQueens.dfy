/** The distributed client: it opens the connection, runs the partitions one
    after another in ascending order, and sends the whole list to the server. */
module ClienteDistribuidoNQueens {
  import opened Placements
  import opened SearchProperties
  import opened Solver
  import opened Simulation

  /** iniciarSimulacao with the number read from the console given as `entrada`
      and the socket's behaviour given as `rede`. If the server cannot be
      reached nothing is computed and the old list stays. Otherwise the list is
      the sequential search's output element for element for n >= 1 and empty
      for n <= 0; an empty list raises ExcecaoSemSolucao before anything is
      sent; a non-empty one is sent (`enviado`) when the connection carries it. */
  method IniciarSimulacao(s: State, entrada: int, rede: Network) returns (r: Outcome, enviado: Option<seq<seq<int>>>)
    modifies s
    ensures s.n == entrada && s.indiceAtual == old(s.indiceAtual)
    ensures rede == Unreachable ==> r == ConnectionFailure && enviado == None && s.solucoes == old(s.solucoes)
    ensures rede != Unreachable ==> fresh(s.solucoes) && s.solucoes.Valid()
    ensures rede != Unreachable ==> s.solucoes.Contents == if entrada >= 1 then Solve(entrada) else []
    ensures rede != Unreachable && s.solucoes.Contents == [] ==> r == NoSolution && enviado == None
    ensures rede != Unreachable && s.solucoes.Contents != [] ==>
              if rede == Delivers then r == ShowBoard && enviado == Some(s.solucoes.Contents)
              else r == ConnectionFailure && enviado == None
  {
    s.n := entrada;
    if rede == Unreachable {
      return ConnectionFailure, None;
    }
    var lista := new SolutionList();
    s.solucoes := lista;
    ghost var m: nat := if entrada < 0 then 0 else entrada;
    var i := 0;
    while i < entrada
      invariant 0 <= i <= m
      invariant s.solucoes == lista && s.n == entrada && s.indiceAtual == old(s.indiceAtual)
      invariant fresh(lista) && lista.Valid()
      invariant lista.Contents == Partitions(m, i)
    {
      var rainhas := new int[entrada];
      rainhas[0] := i;
      assert rainhas[..1] == [i];
      ResolverNQueens(rainhas, 1, rainhas.Length, lista);
      i := i + 1;
    }
    if entrada >= 1 {
      PartitionsCoverSolve(entrada);
    }
    if |lista.items| == 0 {
      return NoSolution, None;
    }
    if rede == DropsOnSend {
      return ConnectionFailure, None;
    }
    r, enviado := ShowBoard, Some(lista.Values());
  }
}
