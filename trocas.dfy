/** The two exchanges between the queue and the stack: trocarPecaAtual and trocaMultipla of tetris.c. */
module Trocas {
  import opened Pecas
  import opened Filas
  import opened Pilhas

  /**
   * The first `k` pieces of queue `q` exchanged pairwise with the top `k` pieces of stack `s`
   * (bottom first): queue position `i` with stack position `|s| - 1 - i`, one pair after the other.
   */
  function TrocaTopo(q: seq<Peca>, s: seq<Peca>, k: nat): (r: (seq<Peca>, seq<Peca>))
    requires k <= |q| && k <= |s|
    ensures |r.0| == |q| && |r.1| == |s|
  {
    if k == 0 then (q, s)
    else
      var r := TrocaTopo(q, s, k - 1);
      TrocaPar(r.0, r.1, k - 1, |s| - k)
  }

  /** One exchange: the piece at queue position `i` and the piece at stack position `j` change places. */
  function TrocaPar(x: seq<Peca>, y: seq<Peca>, i: nat, j: nat): (r: (seq<Peca>, seq<Peca>))
    requires i < |x| && j < |y|
  {
    (x[i := y[j]], y[j := x[i]])
  }

  /**
   * What TrocaTopo does, position by position: queue position `i < k` now holds the stack's old
   * `|s| - 1 - i`, that stack position holds the queue's old `i`, and every other position is as it was.
   */
  lemma {:induction false} TrocaTopoPosicoes(q: seq<Peca>, s: seq<Peca>, k: nat)
    requires k <= |q| && k <= |s|
    ensures forall i :: 0 <= i < k ==> TrocaTopo(q, s, k).0[i] == s[|s| - 1 - i] && TrocaTopo(q, s, k).1[|s| - 1 - i] == q[i]
    ensures forall i :: k <= i < |q| ==> TrocaTopo(q, s, k).0[i] == q[i]
    ensures forall j :: 0 <= j < |s| - k ==> TrocaTopo(q, s, k).1[j] == s[j]
  {
    if k > 0 {
      TrocaTopoPosicoes(q, s, k - 1);
    }
  }

  /** Exchanging the same pairs a second time puts every piece back. */
  lemma TrocaTopoInvolucao(q: seq<Peca>, s: seq<Peca>, k: nat)
    requires k <= |q| && k <= |s|
    ensures TrocaTopo(TrocaTopo(q, s, k).0, TrocaTopo(q, s, k).1, k) == (q, s)
  {
    var (q', s') := TrocaTopo(q, s, k);
    var (q'', s'') := TrocaTopo(q', s', k);
    TrocaTopoPosicoes(q, s, k);
    TrocaTopoPosicoes(q', s', k);
    forall i | 0 <= i < |q|
      ensures q''[i] == q[i]
    {
    }
    forall j | 0 <= j < |s|
      ensures s''[j] == s[j]
    {
      if j >= |s| - k {
        assert s''[|s| - 1 - (|s| - 1 - j)] == q'[|s| - 1 - j];
      }
    }
    assert q'' == q && s'' == s;
  }

  /** No piece is lost, duplicated or made up: the queue and the stack together hold the same pieces. */
  lemma {:induction false} TrocaTopoPermuta(q: seq<Peca>, s: seq<Peca>, k: nat)
    requires k <= |q| && k <= |s|
    ensures multiset(TrocaTopo(q, s, k).0) + multiset(TrocaTopo(q, s, k).1) == multiset(q) + multiset(s)
  {
    if k > 0 {
      var r := TrocaTopo(q, s, k - 1);
      TrocaTopoPermuta(q, s, k - 1);
      MultisetTrocaPar(r.0, r.1, k - 1, |s| - k);
    }
  }

  /** Exchanging one piece of `x` with one piece of `y` keeps the pieces of both together. */
  lemma MultisetTrocaPar(x: seq<Peca>, y: seq<Peca>, i: nat, j: nat)
    requires i < |x| && j < |y|
    ensures multiset(TrocaPar(x, y, i, j).0) + multiset(TrocaPar(x, y, i, j).1) == multiset(x) + multiset(y)
  {
  }

  /** trocarPecaAtual: unless the queue or the stack is empty, the queue's head and the stack's top change places. */
  method TrocarPecaAtual(fila: Fila, pilha: Pilha) returns (feita: bool)
    requires fila.Valid() && pilha.Valid()
    modifies fila.pecas, pilha.pecas
    ensures fila.Valid() && pilha.Valid()
    ensures feita <==> fila.qtd > 0 && pilha.topo >= 0
    ensures !feita ==> unchanged(fila.pecas, pilha.pecas)
    ensures feita ==>
      (fila.Conteudo(), pilha.Conteudo()) == TrocaTopo(old(fila.Conteudo()), old(pilha.Conteudo()), 1)
    ensures feita ==>
      fila.pecas[..] == old(fila.pecas[..])[fila.frente := old(pilha.pecas[pilha.topo])] &&
      pilha.pecas[..] == old(pilha.pecas[..])[pilha.topo := old(fila.pecas[fila.frente])]
  {
    if fila.Vazia() || pilha.Vazia() {
      return false;
    }
    ghost var q, s := fila.Conteudo(), pilha.Conteudo();
    ghost var slots := fila.pecas[..];
    var idx := fila.frente;
    var temp := fila.pecas[idx];
    fila.pecas[idx] := pilha.pecas[pilha.topo];
    pilha.pecas[pilha.topo] := temp;
    JanelaEscrita(slots, fila.frente, fila.qtd, 0, s[|s| - 1]);
    assert fila.Conteudo() == q[0 := s[|s| - 1]];
    assert pilha.Conteudo() == s[|s| - 1 := q[0]];
    feita := true;
  }

  /** trocaMultipla: with at least 3 pieces in each, the queue's first 3 and the stack's top 3 change places. */
  method TrocaMultipla(fila: Fila, pilha: Pilha) returns (feita: bool)
    requires fila.Valid() && pilha.Valid()
    modifies fila.pecas, pilha.pecas
    ensures fila.Valid() && pilha.Valid()
    ensures feita <==> fila.qtd >= 3 && pilha.topo >= 2
    ensures !feita ==> unchanged(fila.pecas, pilha.pecas)
    ensures feita ==>
      (fila.Conteudo(), pilha.Conteudo()) == TrocaTopo(old(fila.Conteudo()), old(pilha.Conteudo()), 3)
    ensures forall d :: 3 <= d < TamFila ==> fila.pecas[Slot(fila.frente, d)] == old(fila.pecas[Slot(fila.frente, d)])
    ensures pilha.pecas[pilha.topo + 1..] == old(pilha.pecas[pilha.topo + 1..])
  {
    if fila.qtd < 3 || pilha.topo < 2 {
      return false;
    }
    ghost var q, s := fila.Conteudo(), pilha.Conteudo();
    for i := 0 to 3
      invariant fila.Conteudo() == TrocaTopo(q, s, i).0
      invariant pilha.Conteudo() == TrocaTopo(q, s, i).1
      invariant forall d :: i <= d < TamFila ==> fila.pecas[Slot(fila.frente, d)] == old(fila.pecas[Slot(fila.frente, d)])
      invariant pilha.pecas[pilha.topo + 1..] == old(pilha.pecas[pilha.topo + 1..])
    {
      TrocarPosicoes(fila, pilha, i);
    }
    feita := true;
  }

  /** One pass of trocaMultipla's loop: logical queue position `i` and stack slot `topo - i` change places. */
  method TrocarPosicoes(fila: Fila, pilha: Pilha, i: int)
    requires fila.Valid() && pilha.Valid()
    requires 0 <= i < fila.qtd && i <= pilha.topo
    modifies fila.pecas, pilha.pecas
    ensures fila.Valid() && pilha.Valid()
    ensures fila.Conteudo() == old(fila.Conteudo())[i := old(pilha.Conteudo())[pilha.topo - i]]
    ensures pilha.Conteudo() == old(pilha.Conteudo())[pilha.topo - i := old(fila.Conteudo())[i]]
    ensures fila.pecas[Slot(fila.frente, i)] == old(pilha.pecas[pilha.topo - i])
    ensures forall d :: 0 <= d < TamFila && d != i ==> fila.pecas[Slot(fila.frente, d)] == old(fila.pecas[Slot(fila.frente, d)])
    ensures pilha.pecas[..] == old(pilha.pecas[..])[pilha.topo - i := old(fila.pecas[Slot(fila.frente, i)])]
  {
    ghost var slots := fila.pecas[..];
    var idx := Slot(fila.frente, i);
    var temp := fila.pecas[idx];
    fila.pecas[idx] := pilha.pecas[pilha.topo - i];
    pilha.pecas[pilha.topo - i] := temp;
    forall d | 0 <= d < TamFila && d != i
      ensures Slot(fila.frente, d) != idx
    {
      Deslocamento(fila.frente, d);
      Deslocamento(fila.frente, i);
    }
    JanelaEscrita(slots, fila.frente, fila.qtd, i, old(pilha.pecas[pilha.topo - i]));
  }
}
