/** The static state the three programs share in form (n, solucoes,
    indiceAtual), how a run ends, and the index navigation of the board view. */
module Simulation {
  import opened Solver

  /** How iniciarSimulacao ends. */
  datatype Outcome =
    | ShowBoard          // the board window is scheduled with the solutions
    | NoSolution         // ExcecaoSemSolucao: the list came out empty
    | NegativeArraySize  // new int[n] with n < 0 (not caught by the program)
    | ConnectionFailure  // IOException from the client's socket

  /** What the client's socket does: the server cannot be reached (line 41), the
      connection opens but writeObject fails, or the list is delivered. */
  datatype Network = Unreachable | DropsOnSend | Delivers

  datatype Option<T> = None | Some(value: T)

  /** The static fields of one program. */
  class State {
    var n: int
    var solucoes: SolutionList
    var indiceAtual: int

    /** Before the first run: indiceAtual = 0 and no solutions yet. */
    constructor ()
      ensures n == 0 && indiceAtual == 0
      ensures fresh(solucoes) && solucoes.Valid() && solucoes.Contents == []
    {
      n := 0;
      solucoes := new SolutionList();
      indiceAtual := 0;
    }

    /** The index the view shows is one of the list's positions. */
    predicate IndiceValido()
      reads this, solucoes
    {
      0 <= indiceAtual < |solucoes.items|
    }

    /** mostrarSolucao: move to `indice` when it is a position of the list,
        otherwise change nothing; an index in range stays in range. */
    method MostrarSolucao(indice: int)
      modifies this`indiceAtual
      ensures 0 <= indice < |solucoes.items| ==> indiceAtual == indice
      ensures !(0 <= indice < |solucoes.items|) ==> indiceAtual == old(indiceAtual)
      ensures old(IndiceValido()) || 0 <= indice < |solucoes.items| ==> IndiceValido()
    {
      if indice >= 0 && indice < |solucoes.items| {
        indiceAtual := indice;
      }
    }
  }
}
