/** The backtracking search shared by the three programs: the safety check on
    the working array, the recursive solver that writes candidate columns into
    that array in place, and the solution list it appends snapshots to. */
module Solver {
  import opened Placements

  /** The List<int[]> of solutions: every element is an array of its own (a
      clone of the working array), and Contents is what those arrays hold. */
  class SolutionList {
    var items: seq<array<int>>
    ghost var Contents: seq<seq<int>>

    ghost predicate Valid()
      reads this, items
    {
      |items| == |Contents| &&
      forall k :: 0 <= k < |items| ==> items[k][..] == Contents[k]
    }

    /** new ArrayList<>() */
    constructor ()
      ensures Valid() && items == [] && Contents == []
    {
      items := [];
      Contents := [];
    }

    /** The columns the stored arrays hold, read out of the heap: what
        writeObject puts on the wire. */
    function Values(): (v: seq<seq<int>>)
      reads this, items
      requires Valid()
      ensures v == Contents
    {
      var arrays := items;
      seq(|arrays|, k requires 0 <= k < |arrays| reads arrays => arrays[k][..])
    }

    /** solucoes.add(rainhas.clone()), the body of adicionarSolucao: appends one
        fresh copy of the array and leaves every earlier element as it was. */
    method AdicionarSolucao(rainhas: array<int>)
      requires Valid()
      modifies this
      ensures Valid()
      ensures |items| == |old(items)| + 1 && items[..|old(items)|] == old(items)
      ensures fresh(items[|old(items)|])
      ensures Contents == old(Contents) + [rainhas[..]]
    {
      var copia := new int[rainhas.Length](k requires 0 <= k < rainhas.Length reads rainhas => rainhas[k]);
      assert copia[..] == rainhas[..];
      items := items + [copia];
      Contents := Contents + [copia[..]];
    }
  }

  /** posicaoSegura: whether column `coluna` on row `linha` is attacked by none of
      the queens on rows 0 .. linha-1. Reads only those rows and changes nothing. */
  method PosicaoSegura(rainhas: array<int>, linha: nat, coluna: int) returns (segura: bool)
    requires linha <= rainhas.Length
    ensures segura <==> Safe(rainhas[..linha], coluna)
  {
    var i := 0;
    while i < linha
      invariant i <= linha
      invariant forall k :: 0 <= k < i ==> rainhas[k] != coluna && Abs(rainhas[k] - coluna) != linha - k
    {
      if rainhas[i] == coluna || Abs(rainhas[i] - coluna) == Abs(i - linha) {
        return false;
      }
      i := i + 1;
    }
    return true;
  }

  /** resolverNQueens: depth-first search from row `linha`, trying the columns
      0 .. largura-1 on every row (largura is rainhas.length in the sequential
      and client programs, the parameter n in the parallel one). It appends to
      `solucoes` a clone of the array for every completed board, exactly the
      list Sols describes, keeps rows 0 .. linha-1 as they were, and leaves the
      rows it wrote holding their last candidate (they are never reset). */
  method ResolverNQueens(rainhas: array<int>, linha: nat, largura: nat, solucoes: SolutionList)
    requires linha <= rainhas.Length
    requires solucoes.Valid() && rainhas !in solucoes.items
    modifies rainhas, solucoes
    ensures solucoes.Valid() && rainhas !in solucoes.items
    ensures rainhas[..linha] == old(rainhas[..linha])
    ensures |old(solucoes.items)| <= |solucoes.items|
    ensures solucoes.items[..|old(solucoes.items)|] == old(solucoes.items)
    ensures forall k :: |old(solucoes.items)| <= k < |solucoes.items| ==> fresh(solucoes.items[k])
    ensures solucoes.Contents == old(solucoes.Contents) + Sols(rainhas.Length, largura, old(rainhas[..linha]))
    decreases rainhas.Length - linha
  {
    if linha == rainhas.Length {
      assert rainhas[..linha] == rainhas[..];
      solucoes.AdicionarSolucao(rainhas);
    } else {
      ghost var prefixo := rainhas[..linha];
      for coluna := 0 to largura
        invariant solucoes.Valid() && rainhas !in solucoes.items
        invariant rainhas[..linha] == prefixo
        invariant |old(solucoes.items)| <= |solucoes.items|
        invariant solucoes.items[..|old(solucoes.items)|] == old(solucoes.items)
        invariant forall k :: |old(solucoes.items)| <= k < |solucoes.items| ==> fresh(solucoes.items[k])
        invariant solucoes.Contents == old(solucoes.Contents) + Cols(rainhas.Length, largura, prefixo, coluna)
      {
        var segura := PosicaoSegura(rainhas, linha, coluna);
        if segura {
          rainhas[linha] := coluna;
          assert rainhas[..linha + 1] == prefixo + [coluna];
          ResolverNQueens(rainhas, linha + 1, largura, solucoes);
          assert rainhas[..linha] == rainhas[..linha + 1][..linha];
        }
      }
    }
  }
}
