/** The bounded stack of reserved pieces (struct Pilha of tetris.c, capacity TAM_PILHA). */
module Pilhas {
  import opened Pecas

  const TamPilha: nat := 3

  class Pilha {
    /** The buffer of TAM_PILHA slots, embedded in the struct: it is never replaced. */
    const pecas: array<Peca>
    /** Index of the top piece; -1 when the stack is empty. */
    var topo: int

    ghost predicate Valid()
      reads this
    {
      pecas.Length == TamPilha && -1 <= topo < TamPilha
    }

    /** The stack, bottom first: slots 0 to `topo`. */
    ghost function Conteudo(): (s: seq<Peca>)
      requires Valid()
      reads this, pecas
      ensures |s| == topo + 1
    {
      pecas[..topo + 1]
    }

    /** inicializarPilha: an empty stack. */
    constructor ()
      ensures Valid() && fresh(pecas)
      ensures topo == -1 && Conteudo() == []
    {
      pecas := new Peca[TamPilha];
      topo := -1;
    }

    /** pilhaCheia */
    predicate Cheia()
      requires Valid()
      reads this, pecas
      ensures Cheia() <==> |Conteudo()| == TamPilha
    {
      topo == TamPilha - 1
    }

    /** pilhaVazia */
    predicate Vazia()
      requires Valid()
      reads this, pecas
      ensures Vazia() <==> Conteudo() == []
    {
      topo == -1
    }

    /** empilhar: a full stack is left exactly as it was; otherwise `p` goes on top. */
    method Empilhar(p: Peca)
      requires Valid()
      modifies this, pecas
      ensures Valid()
      ensures old(topo) == TamPilha - 1 ==> unchanged(this, pecas)
      ensures old(topo) < TamPilha - 1 ==>
        Conteudo() == old(Conteudo()) + [p] && topo == old(topo) + 1 &&
        pecas[..] == old(pecas[..])[topo := p]
    {
      if Cheia() {
        return;
      }
      topo := topo + 1;
      pecas[topo] := p;
      assert pecas[..topo + 1] == old(pecas[..topo + 1]) + [p];
    }

    /** desempilhar: the sentinel from an empty stack, which is left as it was; otherwise the top, removed. */
    method Desempilhar() returns (removida: Peca)
      requires Valid()
      modifies this
      ensures Valid()
      ensures old(topo) == -1 ==> removida == Removida && unchanged(this)
      ensures old(topo) >= 0 ==>
        removida == old(Conteudo())[old(topo)] && Conteudo() == old(Conteudo())[..old(topo)] &&
        topo == old(topo) - 1
    {
      removida := Removida;
      if Vazia() {
        return;
      }
      removida := pecas[topo];
      topo := topo - 1;
    }

    /** The walk of exibirEstado over the stack: the pieces it prints, top first ("(vazia)" when none). */
    method Listar() returns (vistas: seq<Peca>)
      requires Valid()
      ensures |vistas| == |Conteudo()|
      ensures forall k :: 0 <= k < |vistas| ==> vistas[k] == Conteudo()[topo - k]
    {
      vistas := [];
      var i := topo;
      while i >= 0
        invariant -1 <= i <= topo
        invariant |vistas| == topo - i
        invariant forall k :: 0 <= k < |vistas| ==> vistas[k] == pecas[topo - k]
      {
        vistas := vistas + [pecas[i]];
        i := i - 1;
      }
    }
  }

  /** A piece pushed on a stack with room is the one the next pop returns, and the stack is as before. */
  method OrdemLifo(pilha: Pilha, p: Peca) returns (x: Peca)
    requires pilha.Valid() && !pilha.Cheia()
    modifies pilha, pilha.pecas
    ensures pilha.Valid() && pilha.Conteudo() == old(pilha.Conteudo())
    ensures x == p
  {
    pilha.Empilhar(p);
    x := pilha.Desempilhar();
  }
}
