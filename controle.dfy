/** The state `main` of tetris.c keeps (the queue, the stack, the id counter) and the commands of its menu. */
module Controle {
  import opened Pecas
  import opened Filas
  import opened Pilhas
  import opened Trocas

  /** What one pass of the menu loop reports: the piece a command moved, or why it did nothing. */
  datatype Resposta =
    | Jogada(peca: Peca)        // option 1
    | Reservada(peca: Peca)     // option 2
    | Usada(peca: Peca)         // option 3
    | Trocada                   // option 4
    | TrocadasTres              // option 5
    | Encerrado                 // option 0
    | FilaVazia
    | PilhaCheia
    | PilhaVazia
    | TrocaImpossivel
    | PecasInsuficientes
    | OpcaoInvalida
    | EntradaInvalida
  {
    /** The answers for which the command leaves the game exactly as it was. */
    predicate Recusada()
    {
      !(Jogada? || Reservada? || Usada? || Trocada? || TrocadasTres?)
    }
  }

  /** The head of the queue leaving the game keeps the ids unique. */
  lemma IdsUnicosSemCabeca(q: seq<Peca>, s: seq<Peca>, proximo: int)
    requires |q| > 0 && IdsUnicos(multiset(q) + multiset(s), proximo)
    ensures IdsUnicos(multiset(q[1..]) + multiset(s), proximo)
  {
    MultisetCabeca(q);
    assert multiset(q[1..]) + multiset(s) == multiset(q) + multiset(s) - multiset{q[0]};
    IdsUnicosRetira(multiset(q) + multiset(s), q[0], proximo);
  }

  /** The top of the stack leaving the game keeps the ids unique. */
  lemma IdsUnicosSemTopo(q: seq<Peca>, s: seq<Peca>, proximo: int)
    requires |s| > 0 && IdsUnicos(multiset(q) + multiset(s), proximo)
    ensures IdsUnicos(multiset(q) + multiset(s[..|s| - 1]), proximo)
  {
    MultisetUltimo(s);
    assert multiset(q) + multiset(s[..|s| - 1]) == multiset(q) + multiset(s) - multiset{s[|s| - 1]};
    IdsUnicosRetira(multiset(q) + multiset(s), s[|s| - 1], proximo);
  }

  /** Moving the head of the queue onto the stack keeps the same pieces in play. */
  lemma IdsUnicosCabecaParaPilha(q: seq<Peca>, s: seq<Peca>, proximo: int)
    requires |q| > 0 && IdsUnicos(multiset(q) + multiset(s), proximo)
    ensures IdsUnicos(multiset(q[1..]) + multiset(s + [q[0]]), proximo)
  {
    MultisetCabeca(q);
    assert multiset(q[1..]) + multiset(s + [q[0]]) == multiset(q) + multiset(s);
  }

  /** Enqueueing the piece generated with the counter's value keeps ids unique once the counter moves on. */
  lemma IdsUnicosNovaPeca(q: seq<Peca>, s: seq<Peca>, p: Peca, proximo: int)
    requires IdsUnicos(multiset(q) + multiset(s), proximo)
    requires 0 <= proximo && p.id == proximo
    ensures IdsUnicos(multiset(q + [p]) + multiset(s), proximo + 1)
  {
    IdsUnicosAcrescenta(multiset(q) + multiset(s), p, proximo);
    assert multiset(q + [p]) + multiset(s) == multiset(q) + multiset(s) + multiset{p};
  }

  /** Exchanging pieces between the queue and the stack keeps ids unique. */
  lemma IdsUnicosTroca(q: seq<Peca>, s: seq<Peca>, k: nat, proximo: int)
    requires k <= |q| && k <= |s| && IdsUnicos(multiset(q) + multiset(s), proximo)
    ensures IdsUnicos(multiset(TrocaTopo(q, s, k).0) + multiset(TrocaTopo(q, s, k).1), proximo)
  {
    TrocaTopoPermuta(q, s, k);
  }

  /** The first `n` pieces generated from the draws `sorteios`, numbered on from `base`, in order. */
  function Lote(sorteios: seq<nat>, base: int, n: nat): (l: seq<Peca>)
    requires n <= |sorteios|
    ensures |l| == n
  {
    if n == 0 then [] else Lote(sorteios, base, n - 1) + [GerarPeca(sorteios[n - 1], base + n - 1)]
  }

  /** Piece `k` of a batch is generated from draw `k` with id `base + k`. */
  lemma {:induction false} LoteEm(sorteios: seq<nat>, base: int, n: nat, k: nat)
    requires n <= |sorteios| && k < n
    ensures Lote(sorteios, base, n)[k] == GerarPeca(sorteios[k], base + k)
    ensures Lote(sorteios, base, n)[k].id == base + k
  {
    if k < n - 1 {
      LoteEm(sorteios, base, n - 1, k);
    }
  }

  class Jogo {
    const fila: Fila
    const pilha: Pilha
    /** The counter `idAtual` of main: the id the next generated piece gets. */
    var idAtual: int
    /** The ids generated so far, in order. */
    ghost var geradas: seq<int>

    /** `idAtual++` is the only source of ids: the k-th piece generated got id k. */
    ghost predicate Contador()
      reads this
    {
      |geradas| == idAtual && forall k :: 0 <= k < |geradas| ==> geradas[k] == k
    }

    /** The pieces held in the queue and the stack together. */
    ghost predicate Valid()
      reads this, fila, fila.pecas, pilha, pilha.pecas
    {
      fila.Valid() && pilha.Valid() && Contador() && IdsUnicos(multiset(fila.Conteudo()) + multiset(pilha.Conteudo()), idAtual)
    }

    /** The start of main: inicializarFila, inicializarPilha and the counter at 0. */
    constructor ()
      ensures Valid() && fresh(fila) && fresh(fila.pecas) && fresh(pilha) && fresh(pilha.pecas)
      ensures fila.Vazia() && pilha.Vazia() && idAtual == 0
    {
      fila := new Fila();
      pilha := new Pilha();
      idAtual := 0;
      geradas := [];
      new;
      assert multiset(fila.Conteudo()) + multiset(pilha.Conteudo()) == multiset{};
    }

    /** The loop at the start of main: TAM_FILA generated pieces fill the empty queue, numbered on from the counter. */
    method PreencherFila(sorteios: seq<nat>)
      requires Valid() && fila.Vazia() && |sorteios| >= TamFila
      modifies this, fila, fila.pecas
      ensures Valid() && fila.Cheia() && idAtual == old(idAtual) + TamFila
      ensures fila.Conteudo() == Lote(sorteios, old(idAtual), TamFila)
      ensures unchanged(pilha, pilha.pecas)
    {
      ghost var base := idAtual;
      for i := 0 to TamFila
        invariant Valid() && idAtual == base + i && fila.qtd == i
        invariant fila.Conteudo() == Lote(sorteios, base, i)
        invariant unchanged(pilha, pilha.pecas)
      {
        ghost var nova := GerarPeca(sorteios[i], base + i);
        assert Lote(sorteios, base, i + 1) == Lote(sorteios, base, i) + [nova];
        Repor(sorteios[i]);
      }
    }

    /** `gerarPeca(idAtual++)`: the new piece's id is above every id generated before it. */
    method NovaPeca(sorteio: nat) returns (p: Peca)
      requires Contador()
      modifies this`idAtual, this`geradas
      ensures Contador()
      ensures p == GerarPeca(sorteio, old(idAtual)) && idAtual == old(idAtual) + 1
      ensures geradas == old(geradas) + [p.id]
      ensures forall k :: 0 <= k < |old(geradas)| ==> old(geradas)[k] < p.id
    {
      p := GerarPeca(sorteio, idAtual);
      geradas := geradas + [idAtual];
      idAtual := idAtual + 1;
    }

    /** `enfileirar(&fila, gerarPeca(idAtual++))`, which follows every piece that leaves the queue. */
    method Repor(sorteio: nat)
      requires Valid() && fila.qtd < TamFila
      modifies this, fila, fila.pecas
      ensures Valid() && fila.qtd == old(fila.qtd) + 1
      ensures fila.Conteudo() == old(fila.Conteudo()) + [GerarPeca(sorteio, old(idAtual))]
      ensures idAtual == old(idAtual) + 1
      ensures unchanged(pilha, pilha.pecas)
    {
      ghost var q := fila.Conteudo();
      var p := NovaPeca(sorteio);
      fila.Enfileirar(p);
      IdsUnicosNovaPeca(q, pilha.Conteudo(), p, idAtual - 1);
    }

    /** Option 1: play the head of the queue and refill it, so the queue keeps its size. */
    method Jogar(sorteio: nat) returns (r: Resposta)
      requires Valid()
      modifies this, fila, fila.pecas
      ensures Valid() && fila.qtd == old(fila.qtd)
      ensures old(fila.qtd) == 0 ==> r == FilaVazia && unchanged(this, fila, fila.pecas)
      ensures old(fila.qtd) > 0 ==>
        r == Jogada(old(fila.Conteudo())[0]) &&
        fila.Conteudo() == old(fila.Conteudo())[1..] + [GerarPeca(sorteio, old(idAtual))] &&
        idAtual == old(idAtual) + 1
      ensures unchanged(pilha, pilha.pecas)
    {
      if fila.Vazia() {
        return FilaVazia;
      }
      IdsUnicosSemCabeca(fila.Conteudo(), pilha.Conteudo(), idAtual);
      var jogada := fila.Desenfileirar();
      Repor(sorteio);
      r := Jogada(jogada);
    }

    /** Option 2: unless the queue is empty or the stack full, move the head of the queue onto the stack and refill. */
    method Reservar(sorteio: nat) returns (r: Resposta)
      requires Valid()
      modifies this, fila, fila.pecas, pilha, pilha.pecas
      ensures Valid() && fila.qtd == old(fila.qtd)
      ensures old(fila.qtd) == 0 ==> r == FilaVazia
      ensures old(fila.qtd) > 0 && old(pilha.topo) == TamPilha - 1 ==> r == PilhaCheia
      ensures r.Recusada() ==> unchanged(this, fila, fila.pecas, pilha, pilha.pecas)
      ensures old(fila.qtd) > 0 && old(pilha.topo) < TamPilha - 1 ==>
        r == Reservada(old(fila.Conteudo())[0]) &&
        pilha.Conteudo() == old(pilha.Conteudo()) + [old(fila.Conteudo())[0]] &&
        fila.Conteudo() == old(fila.Conteudo())[1..] + [GerarPeca(sorteio, old(idAtual))] &&
        idAtual == old(idAtual) + 1
    {
      if fila.Vazia() {
        return FilaVazia;
      } else if pilha.Cheia() {
        return PilhaCheia;
      }
      var reservada := MoverParaPilha();
      Repor(sorteio);
      r := Reservada(reservada);
    }

    /** `empilhar(&pilha, desenfileirar(&fila))`: the head of the queue goes on top of the stack. */
    method MoverParaPilha() returns (movida: Peca)
      requires Valid() && fila.qtd > 0 && pilha.topo < TamPilha - 1
      modifies fila, pilha, pilha.pecas
      ensures fila.Valid() && pilha.Valid() && Contador() && unchanged(this)
      ensures IdsUnicos(multiset(fila.Conteudo()) + multiset(pilha.Conteudo()), idAtual)
      ensures movida == old(fila.Conteudo())[0] && fila.qtd == old(fila.qtd) - 1
      ensures fila.Conteudo() == old(fila.Conteudo())[1..]
      ensures pilha.Conteudo() == old(pilha.Conteudo()) + [movida]
    {
      ghost var q, s := fila.Conteudo(), pilha.Conteudo();
      IdsUnicosCabecaParaPilha(q, s, idAtual);
      movida := fila.Desenfileirar();
      pilha.Empilhar(movida);
    }

    /** Option 3: take the top of the stack out of the game; nothing replaces it. */
    method UsarReservada() returns (r: Resposta)
      requires Valid()
      modifies pilha
      ensures Valid()
      ensures old(pilha.topo) == -1 ==> r == PilhaVazia && unchanged(pilha)
      ensures old(pilha.topo) >= 0 ==>
        r == Usada(old(pilha.Conteudo())[old(pilha.topo)]) &&
        pilha.Conteudo() == old(pilha.Conteudo())[..old(pilha.topo)]
    {
      if pilha.Vazia() {
        return PilhaVazia;
      }
      IdsUnicosSemTopo(fila.Conteudo(), pilha.Conteudo(), idAtual);
      var usada := pilha.Desempilhar();
      r := Usada(usada);
    }

    /** Option 4: trocarPecaAtual. */
    method TrocarAtual() returns (r: Resposta)
      requires Valid()
      modifies fila.pecas, pilha.pecas
      ensures Valid()
      ensures r == (if fila.qtd > 0 && pilha.topo >= 0 then Trocada else TrocaImpossivel)
      ensures r == TrocaImpossivel ==> unchanged(fila.pecas, pilha.pecas)
      ensures r == Trocada ==>
        (fila.Conteudo(), pilha.Conteudo()) == TrocaTopo(old(fila.Conteudo()), old(pilha.Conteudo()), 1)
    {
      ghost var q, s := fila.Conteudo(), pilha.Conteudo();
      var feita := TrocarPecaAtual(fila, pilha);
      if feita {
        IdsUnicosTroca(q, s, 1, idAtual);
      }
      r := if feita then Trocada else TrocaImpossivel;
    }

    /** Option 5: trocaMultipla. */
    method TrocarTres() returns (r: Resposta)
      requires Valid()
      modifies fila.pecas, pilha.pecas
      ensures Valid()
      ensures r == (if fila.qtd >= 3 && pilha.topo >= 2 then TrocadasTres else PecasInsuficientes)
      ensures r == PecasInsuficientes ==> unchanged(fila.pecas, pilha.pecas)
      ensures r == TrocadasTres ==>
        (fila.Conteudo(), pilha.Conteudo()) == TrocaTopo(old(fila.Conteudo()), old(pilha.Conteudo()), 3)
    {
      ghost var q, s := fila.Conteudo(), pilha.Conteudo();
      var feita := TrocaMultipla(fila, pilha);
      if feita {
        IdsUnicosTroca(q, s, 3, idAtual);
      }
      r := if feita then TrocadasTres else PecasInsuficientes;
    }

    /**
     * One pass of main's switch. -1 is what main stores when scanf could not read a number. Every command
     * leaves the size of the queue as it was, and a refused one leaves the whole game as it was.
     */
    method Executar(opcao: int, sorteio: nat) returns (r: Resposta)
      requires Valid()
      modifies this, fila, fila.pecas, pilha, pilha.pecas
      ensures Valid() && fila.qtd == old(fila.qtd)
      ensures r.Recusada() ==> unchanged(this, fila, fila.pecas, pilha, pilha.pecas)
      ensures opcao == 0 <==> r == Encerrado
      ensures !(0 <= opcao <= 5) ==> r == (if opcao == -1 then EntradaInvalida else OpcaoInvalida)
      ensures opcao == 1 ==> r == (if old(fila.qtd) == 0 then FilaVazia else Jogada(old(fila.Conteudo())[0]))
      ensures opcao == 1 && r.Jogada? ==>
        fila.Conteudo() == old(fila.Conteudo())[1..] + [GerarPeca(sorteio, old(idAtual))] &&
        idAtual == old(idAtual) + 1 && unchanged(pilha, pilha.pecas)
      ensures opcao == 2 ==>
        r == (if old(fila.qtd) == 0 then FilaVazia
              else if old(pilha.topo) == TamPilha - 1 then PilhaCheia
              else Reservada(old(fila.Conteudo())[0]))
      ensures opcao == 2 && r.Reservada? ==>
        pilha.Conteudo() == old(pilha.Conteudo()) + [r.peca] &&
        fila.Conteudo() == old(fila.Conteudo())[1..] + [GerarPeca(sorteio, old(idAtual))] &&
        idAtual == old(idAtual) + 1
      ensures opcao == 3 ==> r == (if old(pilha.topo) == -1 then PilhaVazia else Usada(old(pilha.Conteudo())[old(pilha.topo)]))
      ensures opcao == 3 && r.Usada? ==>
        pilha.Conteudo() == old(pilha.Conteudo())[..old(pilha.topo)] && unchanged(this, fila, fila.pecas)
      ensures opcao == 4 ==> r == (if old(fila.qtd) > 0 && old(pilha.topo) >= 0 then Trocada else TrocaImpossivel)
      ensures opcao == 4 && r == Trocada ==>
        (fila.Conteudo(), pilha.Conteudo()) == TrocaTopo(old(fila.Conteudo()), old(pilha.Conteudo()), 1) &&
        idAtual == old(idAtual)
      ensures opcao == 5 ==> r == (if old(fila.qtd) >= 3 && old(pilha.topo) >= 2 then TrocadasTres else PecasInsuficientes)
      ensures opcao == 5 && r == TrocadasTres ==>
        (fila.Conteudo(), pilha.Conteudo()) == TrocaTopo(old(fila.Conteudo()), old(pilha.Conteudo()), 3) &&
        idAtual == old(idAtual)
    {
      if opcao == 1 {
        r := Jogar(sorteio);
      } else if opcao == 2 {
        r := Reservar(sorteio);
      } else if opcao == 3 {
        r := UsarReservada();
      } else if opcao == 4 {
        r := TrocarAtual();
      } else if opcao == 5 {
        r := TrocarTres();
      } else if opcao == 0 {
        r := Encerrado;
      } else if opcao == -1 {
        r := EntradaInvalida;
      } else {
        r := OpcaoInvalida;
      }
    }

    /** One pass of main's do … while loop on a running game: the queue stays full, and only option 0 ends the loop. */
    method Rodada(opcao: int, sorteio: nat) returns (r: Resposta)
      requires Valid() && fila.Cheia()
      modifies this, fila, fila.pecas, pilha, pilha.pecas
      ensures Valid() && fila.Cheia()
      ensures r == Encerrado <==> opcao == 0
    {
      r := Executar(opcao, sorteio);
    }

    /**
     * main's do … while loop on a running game: pass k reads option `opcoes[k]` and, when the command
     * generates a piece, uses draw `sorteios[k]`; the loop stops after the pass that reads option 0.
     */
    method Partida(opcoes: seq<int>, sorteios: seq<nat>) returns (respostas: seq<Resposta>)
      requires Valid() && fila.Cheia() && |sorteios| == |opcoes|
      modifies this, fila, fila.pecas, pilha, pilha.pecas
      ensures Valid() && fila.Cheia()
      ensures |respostas| <= |opcoes|
      ensures respostas == [] || (0 !in opcoes[..|respostas| - 1] && Encerrado !in respostas[..|respostas| - 1])
      ensures respostas != [] ==> (respostas[|respostas| - 1] == Encerrado <==> opcoes[|respostas| - 1] == 0)
      ensures |respostas| < |opcoes| ==> respostas != [] && opcoes[|respostas| - 1] == 0
    {
      respostas := [];
      var i := 0;
      while i < |opcoes|
        invariant 0 <= i <= |opcoes| && |respostas| == i
        invariant Valid() && fila.Cheia()
        invariant 0 !in opcoes[..i] && Encerrado !in respostas
        invariant respostas != [] ==> respostas[i - 1] != Encerrado && opcoes[i - 1] != 0
      {
        var r := Rodada(opcoes[i], sorteios[i]);
        if r == Encerrado {
          respostas := respostas + [r];
          return;
        }
        assert opcoes[..i + 1] == opcoes[..i] + [opcoes[i]];
        respostas := respostas + [r];
        i := i + 1;
      }
    }
  }

  /**
   * The start of main: the empty queue and stack, the counter at 0, and the loop that fills the queue.
   * The queue ends full with ids 0 to TAM_FILA - 1 in FIFO order and nothing in reserve.
   */
  method Iniciar(sorteios: seq<nat>) returns (jogo: Jogo)
    requires |sorteios| >= TamFila
    ensures fresh(jogo) && jogo.Valid()
    ensures fresh(jogo.fila) && fresh(jogo.fila.pecas) && fresh(jogo.pilha) && fresh(jogo.pilha.pecas)
    ensures jogo.fila.Cheia() && jogo.pilha.Vazia() && jogo.idAtual == TamFila
    ensures forall k :: 0 <= k < TamFila ==>
      jogo.fila.Conteudo()[k] == GerarPeca(sorteios[k], k) && jogo.fila.Conteudo()[k].id == k
  {
    jogo := new Jogo();
    jogo.PreencherFila(sorteios);
    forall k | 0 <= k < TamFila
      ensures jogo.fila.Conteudo()[k] == GerarPeca(sorteios[k], k)
    {
      LoteEm(sorteios, 0, TamFila, k);
    }
  }

  /**
   * main as a whole: the start, then the do … while loop until option 0 ends it. The queue is full
   * after every pass and the ids in play stay unique.
   */
  method Sessao(sorteios: seq<nat>, opcoes: seq<int>, sorteiosJogo: seq<nat>) returns (jogo: Jogo, respostas: seq<Resposta>)
    requires |sorteios| >= TamFila && |sorteiosJogo| == |opcoes|
    ensures fresh(jogo) && jogo.Valid() && jogo.fila.Cheia()
    ensures |respostas| <= |opcoes|
    ensures respostas == [] || (0 !in opcoes[..|respostas| - 1] && Encerrado !in respostas[..|respostas| - 1])
    ensures respostas != [] ==> (respostas[|respostas| - 1] == Encerrado <==> opcoes[|respostas| - 1] == 0)
    ensures |respostas| < |opcoes| ==> respostas != [] && opcoes[|respostas| - 1] == 0
  {
    jogo := Iniciar(sorteios);
    respostas := jogo.Partida(opcoes, sorteiosJogo);
  }
}
