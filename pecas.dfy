/** Pieces of the game (struct Peca of tetris.c) and the generator that labels them. */
module Pecas {

  /** A piece: its kind, drawn from Tipos, and the identifier it was generated with. */
  datatype Peca = Peca(nome: char, id: int)

  /** The piece desenfileirar and desempilhar hand back when there is nothing to remove. */
  const Removida: Peca := Peca('?', -1)

  /** The table gerarPeca draws a kind from. */
  const Tipos: seq<char> := ['I', 'O', 'T', 'L']

  /** gerarPeca, with the value rand() returned passed in as `sorteio`. */
  function GerarPeca(sorteio: nat, id: int): (p: Peca)
    ensures p.id == id
    ensures p.nome in Tipos && p.nome == Tipos[sorteio % 4]
    ensures p != Removida
  {
    Peca(Tipos[sorteio % |Tipos|], id)
  }

  /** Two pieces carrying the same id. */
  ghost predicate MesmoId(p: Peca, p': Peca)
  {
    p.id == p'.id
  }

  /** Piece `p` is among the pieces `m`. */
  ghost predicate Em(p: Peca, m: multiset<Peca>)
  {
    p in m
  }

  /** The pieces held at one time carry pairwise distinct ids, each one copy, all below `proximo`. */
  ghost predicate IdsUnicos(m: multiset<Peca>, proximo: int)
  {
    (forall p {:trigger Em(p, m)} | Em(p, m) :: m[p] == 1 && 0 <= p.id < proximo) &&
    (forall p, p' {:trigger MesmoId(p, p')} | p in m && p' in m && MesmoId(p, p') :: p == p')
  }

  /** Taking a piece out keeps the ids unique. */
  lemma IdsUnicosRetira(m: multiset<Peca>, p: Peca, proximo: int)
    requires IdsUnicos(m, proximo)
    ensures IdsUnicos(m - multiset{p}, proximo)
  {
    var m' := m - multiset{p};
    forall q | Em(q, m')
      ensures m'[q] == 1 && 0 <= q.id < proximo
    {
      assert Em(q, m);
    }
    forall q, q' | q in m' && q' in m' && MesmoId(q, q')
      ensures q == q'
    {
      assert q in m && q' in m;
    }
  }

  /** Adding the piece generated with the counter's value keeps the ids unique once the counter moves on. */
  lemma IdsUnicosAcrescenta(m: multiset<Peca>, n: Peca, proximo: int)
    requires IdsUnicos(m, proximo)
    requires 0 <= proximo && n.id == proximo
    ensures IdsUnicos(m + multiset{n}, proximo + 1)
  {
    assert n !in m by {
      if n in m {
        assert Em(n, m);
      }
    }
    var m' := m + multiset{n};
    forall q | Em(q, m')
      ensures m'[q] == 1 && 0 <= q.id < proximo + 1
    {
      if q != n {
        assert Em(q, m);
      }
    }
    forall q, q' | q in m' && q' in m' && MesmoId(q, q')
      ensures q == q'
    {
      if q != n && q' != n {
        assert q in m && q' in m;
      } else if q != n {
        assert Em(q, m);
      } else if q' != n {
        assert Em(q', m);
      }
    }
  }

  /** The pieces of a non-empty sequence are its first one and those of the rest. */
  lemma MultisetCabeca(q: seq<Peca>)
    requires |q| > 0
    ensures multiset(q) == multiset{q[0]} + multiset(q[1..])
  {
    assert q == [q[0]] + q[1..];
  }

  /** The pieces of a non-empty sequence are those before its last one and the last one. */
  lemma MultisetUltimo(s: seq<Peca>)
    requires |s| > 0
    ensures multiset(s) == multiset(s[..|s| - 1]) + multiset{s[|s| - 1]}
  {
    assert s == s[..|s| - 1] + [s[|s| - 1]];
  }
}
