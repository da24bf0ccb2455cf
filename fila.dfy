/** The circular queue of upcoming pieces (struct Fila of tetris.c, capacity TAM_FILA). */
module Filas {
  import opened Pecas

  const TamFila: nat := 5

  /** The queue as exibirEstado walks it: `qtd` slots of the buffer read from `frente` on, wrapping round. */
  ghost function Janela(slots: seq<Peca>, frente: int, qtd: int): (q: seq<Peca>)
    requires |slots| == TamFila && 0 <= frente < TamFila && 0 <= qtd <= TamFila
  {
    seq(qtd, i => slots[(frente + i) % TamFila])
  }

  /** The slot that holds logical position `d` of a queue whose head is in slot `frente`. */
  function Slot(frente: int, d: int): (k: int)
    requires 0 <= frente < TamFila && 0 <= d < TamFila
    ensures 0 <= k < TamFila
  {
    (frente + d) % TamFila
  }

  /** Logical offset `i` of a queue starting at `frente` sits in slot `(frente + i) % TamFila`, and back. */
  lemma Deslocamento(frente: int, i: int)
    requires 0 <= frente < TamFila && 0 <= i < TamFila
    ensures 0 <= (frente + i) % TamFila < TamFila
    ensures ((frente + i) % TamFila - frente) % TamFila == i
  {
  }

  /** Overwriting the slot of logical position `i` overwrites element `i` of the queue and nothing else. */
  lemma JanelaEscrita(slots: seq<Peca>, frente: int, qtd: int, i: int, p: Peca)
    requires |slots| == TamFila && 0 <= frente < TamFila && 0 <= qtd <= TamFila && 0 <= i < qtd
    ensures Janela(slots[(frente + i) % TamFila := p], frente, qtd) == Janela(slots, frente, qtd)[i := p]
  {
  }

  /** Writing the slot just past the last one and counting it appends to the queue. */
  lemma JanelaAcrescenta(slots: seq<Peca>, frente: int, qtd: int, p: Peca)
    requires |slots| == TamFila && 0 <= frente < TamFila && 0 <= qtd < TamFila
    ensures Janela(slots[(frente + qtd) % TamFila := p], frente, qtd + 1) == Janela(slots, frente, qtd) + [p]
  {
  }

  /** Advancing `frente` by one slot and counting one fewer drops the head of the queue. */
  lemma JanelaAvanca(slots: seq<Peca>, frente: int, qtd: int)
    requires |slots| == TamFila && 0 <= frente < TamFila && 0 < qtd <= TamFila
    ensures Janela(slots, (frente + 1) % TamFila, qtd - 1) == Janela(slots, frente, qtd)[1..]
  {
  }

  class Fila {
    /** The buffer of TAM_FILA slots, embedded in the struct: it is never replaced. */
    const pecas: array<Peca>
    var frente: int
    var tras: int
    var qtd: int

    /** The index invariants: `qtd` alone tells full from empty, and `tras` is the slot before `frente + qtd`. */
    ghost predicate Valid()
      reads this
    {
      pecas.Length == TamFila &&
      0 <= frente < TamFila && -1 <= tras < TamFila && 0 <= qtd <= TamFila &&
      (tras + 1) % TamFila == (frente + qtd) % TamFila
    }

    /** The queue, front first. */
    ghost function Conteudo(): (q: seq<Peca>)
      requires Valid()
      reads this, pecas
      ensures |q| == qtd
    {
      Janela(pecas[..], frente, qtd)
    }

    /** inicializarFila: an empty queue; the slots hold whatever the buffer held. */
    constructor ()
      ensures Valid() && fresh(pecas)
      ensures frente == 0 && tras == -1 && qtd == 0
      ensures Conteudo() == []
    {
      pecas := new Peca[TamFila];
      frente, tras, qtd := 0, -1, 0;
    }

    /** filaCheia */
    predicate Cheia()
      requires Valid()
      reads this, pecas
      ensures Cheia() <==> |Conteudo()| == TamFila
    {
      qtd == TamFila
    }

    /** filaVazia */
    predicate Vazia()
      requires Valid()
      reads this, pecas
      ensures Vazia() <==> Conteudo() == []
    {
      qtd == 0
    }

    /** enfileirar: a full queue is left exactly as it was; otherwise `p` joins at the back. */
    method Enfileirar(p: Peca)
      requires Valid()
      modifies this, pecas
      ensures Valid()
      ensures old(qtd) == TamFila ==> unchanged(this, pecas)
      ensures old(qtd) < TamFila ==>
        Conteudo() == old(Conteudo()) + [p] &&
        qtd == old(qtd) + 1 && frente == old(frente) && tras == (old(tras) + 1) % TamFila &&
        pecas[..] == old(pecas[..])[tras := p]
    {
      if Cheia() {
        return;
      }
      ghost var slots := pecas[..];
      tras := (tras + 1) % TamFila;
      pecas[tras] := p;
      qtd := qtd + 1;
      JanelaAcrescenta(slots, frente, qtd - 1, p);
    }

    /** desenfileirar: the sentinel from an empty queue, which is left as it was; otherwise the head, removed. */
    method Desenfileirar() returns (removida: Peca)
      requires Valid()
      modifies this
      ensures Valid()
      ensures old(qtd) == 0 ==> removida == Removida && unchanged(this)
      ensures old(qtd) > 0 ==>
        removida == old(Conteudo())[0] && Conteudo() == old(Conteudo())[1..] &&
        frente == (old(frente) + 1) % TamFila && qtd == old(qtd) - 1 && tras == old(tras)
    {
      removida := Removida;
      if Vazia() {
        return;
      }
      JanelaAvanca(pecas[..], frente, qtd);
      removida := pecas[frente];
      frente := (frente + 1) % TamFila;
      qtd := qtd - 1;
    }

    /** The walk of exibirEstado over the queue: the pieces it prints, front first ("(vazia)" when none). */
    method Listar() returns (vistas: seq<Peca>)
      requires Valid()
      ensures vistas == Conteudo()
    {
      vistas := [];
      for i := 0 to qtd
        invariant vistas == Conteudo()[..i]
      {
        var idx := Slot(frente, i);
        vistas := vistas + [pecas[idx]];
      }
    }
  }

  /**
   * Pieces enqueued one after the other on an empty queue come out in the order they went in.
   * Once the queue is full, enfileirar drops the rest, so at most TamFila of them come out.
   */
  method OrdemFifo(fila: Fila, entradas: seq<Peca>) returns (saidas: seq<Peca>)
    requires fila.Valid() && fila.Vazia()
    modifies fila, fila.pecas
    ensures fila.Valid() && fila.Vazia()
    ensures saidas == if |entradas| <= TamFila then entradas else entradas[..TamFila]
  {
    for i := 0 to |entradas|
      invariant fila.Valid() && fila.qtd == if i <= TamFila then i else TamFila
      invariant fila.Conteudo() == entradas[..fila.qtd]
    {
      if fila.qtd < TamFila {
        assert entradas[..fila.qtd + 1] == entradas[..fila.qtd] + [entradas[i]];
      }
      fila.Enfileirar(entradas[i]);
    }
    saidas := Esvaziar(fila);
  }

  /** desenfileirar until the queue is empty: the pieces come out front first, exactly the queue's contents. */
  method Esvaziar(fila: Fila) returns (saidas: seq<Peca>)
    requires fila.Valid()
    modifies fila
    ensures fila.Valid() && fila.Vazia()
    ensures saidas == old(fila.Conteudo())
  {
    ghost var q := fila.Conteudo();
    saidas := [];
    while !fila.Vazia()
      invariant fila.Valid() && |saidas| + fila.qtd == |q|
      invariant saidas == q[..|saidas|] && fila.Conteudo() == q[|saidas|..]
      decreases fila.qtd
    {
      var p := fila.Desenfileirar();
      assert q[|saidas| + 1..] == q[|saidas|..][1..];
      saidas := saidas + [p];
    }
  }
}
