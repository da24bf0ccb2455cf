# Tetris piece queue and reserve stack, in Dafny

This project models `tetris.c`, a console game that manages upcoming Tetris pieces:

- A **piece** (`Peca`) is a kind, one of `I`, `O`, `T`, `L`, plus the id it was generated with.
- The **queue of upcoming pieces** (`Fila`) is a circular buffer of 5 slots with `frente`, `tras` and `qtd`.
- The **reserve** (`Pilha`) is a stack of 3 slots with `topo` (-1 when empty).
- **Two exchanges** move pieces between the queue and the stack. `trocarPecaAtual` swaps the head of the queue with the top of the stack. `trocaMultipla` swaps the first three pieces of the queue with the top three of the stack.
- **The menu of `main`** plays the head of the queue, reserves it on the stack, uses the reserved top, or runs an exchange. Every piece played or reserved from the queue (options 1 and 2) is replaced at once by a newly generated piece numbered by the counter `idAtual`. The exchanges (options 4 and 5) generate no piece: queue pieces change places with stack pieces.

Modules:

- `Pecas`: the piece, the generator `gerarPeca`, and the `{'?', -1}` value that the removing operations return when there is nothing to remove. It also defines `IdsUnicos`, the statement that the pieces in play carry distinct ids, all below the counter.
- `Filas` and `Pilhas`: `Fila` and `Pilha` are classes over arrays, updated in place as the C code updates its structs. The abstract queue `Fila.Conteudo()` is what `exibirEstado` walks: `qtd` slots read from `frente` on, wrapping round. The abstract stack `Pilha.Conteudo()` is slots `0..topo`.
- `Trocas`: the two exchanges as methods over both objects. Each is proved against a pure function `TrocaTopo(q, s, k)`, "the first `k` of the queue exchanged pairwise with the top `k` of the stack". Three lemmas are proved about `TrocaTopo`:
  - what it does position by position;
  - it is its own inverse;
  - it keeps the pieces in play.
- `Controle`: the state `main` keeps, as the class `Jogo`: `fila`, `pilha`, `idAtual`, and a ghost record of the ids generated so far. Its invariant says every id in play is unique and below `idAtual`.
  - `Iniciar` is the start of `main`.
  - `Executar` is one pass of the `switch`. Each menu option is its own method.

## Model

| member | source | states |
|---|---|---|
| Pecas.GerarPeca | tetris.c:238-244 | the new piece has the id passed in and the kind `tipos[sorteio % 4]`, always one of `I`, `O`, `T`, `L`; it is never the "nothing removed" value `{'?', -1}` |
| Pecas.IdsUnicosRetira | tetris.c:12 | taking any piece out of the pieces in play keeps their ids unique and below the counter |
| Pecas.IdsUnicosAcrescenta | tetris.c:57 | adding the piece generated with the counter's current value keeps ids unique once the counter has moved on by one |
| Filas.Fila.Conteudo | tetris.c:221-224 | the abstract queue has exactly `qtd` pieces |
| Filas.JanelaEscrita | tetris.c:207-211 | writing the slot `(frente + i) % 5` changes element `i` of the queue and no other |
| Filas.JanelaAcrescenta | tetris.c:159-161 | writing the slot after the last one and counting it appends that piece to the queue |
| Filas.JanelaAvanca | tetris.c:168-170 | moving `frente` on by one slot mod 5 and counting one fewer drops exactly the head of the queue |
| Filas.Fila.constructor | tetris.c:139-143 | `frente = 0`, `tras = -1`, `qtd = 0`, the index invariant holds, and the queue is empty |
| Filas.Fila.Cheia | tetris.c:151 | full exactly when the queue holds 5 pieces |
| Filas.Fila.Vazia | tetris.c:152 | empty exactly when the queue holds no piece |
| Filas.Fila.Enfileirar | tetris.c:157-162 | on a full queue nothing changes. Otherwise the piece joins the back, `qtd` grows by 1, `tras` moves on mod 5, only slot `tras` is written, and the index invariant `(tras + 1) % 5 == (frente + qtd) % 5` is kept |
| Filas.Fila.Desenfileirar | tetris.c:165-172 | on an empty queue it returns `{'?', -1}` and changes nothing. Otherwise it returns the old head, the queue becomes the old tail, `frente` moves on mod 5, `qtd` drops by 1 and `tras` is kept |
| Filas.Fila.Listar | tetris.c:219-225 | the loop of `exibirEstado` over the queue visits exactly the queue's pieces, front first |
| Filas.OrdemFifo | tetris.c:157-172 | any sequence of pieces enqueued one by one on an empty queue comes out in the order it went in. Once 5 are in, `enfileirar` drops the rest, so exactly the first `min(n, 5)` come out; the queue ends empty |
| Filas.Esvaziar | tetris.c:165-172 | calling `desenfileirar` until the queue is empty yields exactly the queue's contents, front first |
| Pilhas.Pilha.Conteudo | tetris.c:228-233 | the abstract stack has exactly `topo + 1` pieces |
| Pilhas.Pilha.constructor | tetris.c:146-148 | `topo = -1` and the stack is empty |
| Pilhas.Pilha.Cheia | tetris.c:153 | full exactly when the stack holds 3 pieces |
| Pilhas.Pilha.Vazia | tetris.c:154 | empty exactly when the stack holds no piece |
| Pilhas.Pilha.Empilhar | tetris.c:175-178 | on a full stack nothing changes. Otherwise the piece goes on top, `topo` grows by 1 and only that slot is written |
| Pilhas.Pilha.Desempilhar | tetris.c:181-186 | on an empty stack it returns `{'?', -1}` and changes nothing. Otherwise it returns the old top, the stack loses it and `topo` drops by 1 |
| Pilhas.Pilha.Listar | tetris.c:228-233 | the loop of `exibirEstado` over the stack visits exactly the stack's pieces, top first |
| Pilhas.OrdemLifo | tetris.c:175-186 | on a stack with room, a pop right after a push returns the pushed piece and restores the stack |
| Trocas.TrocaTopo | tetris.c:207-212 | exchanging `k` pairs keeps the sizes of the queue and the stack |
| Trocas.TrocaTopoPosicoes | tetris.c:207-212 | after `k` exchanges, queue position `i < k` holds the stack's old position `topo - i` and vice versa; every other position of either is as it was |
| Trocas.TrocaTopoInvolucao | tetris.c:194-197 | exchanging the same pairs twice restores both the queue and the stack |
| Trocas.TrocaTopoPermuta | tetris.c:207-212 | an exchange keeps the multiset of pieces in queue and stack together: none is lost, copied or made up |
| Trocas.TrocarPecaAtual | tetris.c:189-199 | the exchange happens exactly when neither is empty, and otherwise nothing changes. When it happens the queue and stack become `TrocaTopo(q, s, 1)`, only slot `frente` of the queue and slot `topo` of the stack are written, and `qtd`/`topo` are kept |
| Trocas.TrocaMultipla | tetris.c:202-214 | the exchange happens exactly when `qtd >= 3` and `topo >= 2`, and otherwise nothing changes. When it happens the queue and stack become `TrocaTopo(q, s, 3)`. Queue slots for logical positions 3 and 4 and stack slots above `topo` are untouched |
| Trocas.TrocarPosicoes | tetris.c:208-211 | one pass of the loop exchanges logical queue position `i` with stack slot `topo - i` and writes no other queue slot or stack slot |
| Controle.Lote | tetris.c:56-57 | the batch of `n` generated pieces has `n` pieces |
| Controle.LoteEm | tetris.c:56-57 | piece `k` of the batch is generated from draw `k` with id `base + k` |
| Controle.IdsUnicosSemCabeca | tetris.c:86 | playing the head of the queue keeps ids unique |
| Controle.IdsUnicosSemTopo | tetris.c:110 | using the top of the stack keeps ids unique |
| Controle.IdsUnicosCabecaParaPilha | tetris.c:100-101 | moving the head of the queue onto the stack keeps ids unique |
| Controle.IdsUnicosNovaPeca | tetris.c:88 | enqueuing `gerarPeca(idAtual++)` keeps ids unique below the new counter |
| Controle.IdsUnicosTroca | tetris.c:116-122 | the exchanges keep ids unique |
| Controle.Jogo.constructor | tetris.c:47-53 | an empty queue, an empty stack, the counter at 0, ids trivially unique |
| Controle.Jogo.PreencherFila | tetris.c:56-58 | the empty queue is filled to 5 with pieces generated from the successive draws, numbered on from the counter, in FIFO order; the counter moves on by 5 and the stack is untouched |
| Controle.Jogo.NovaPeca | tetris.c:57 | `gerarPeca(idAtual++)`: the new piece has the counter's old value as its id, the counter grows by 1, and that id is greater than every id generated before |
| Controle.Jogo.Repor | tetris.c:88 | enqueuing the newly generated piece on a queue with room appends it and keeps ids unique; the stack is untouched |
| Controle.Jogo.Jogar | tetris.c:84-93 | on an empty queue the answer is "queue empty" and nothing changes. Otherwise the old head is played, the queue becomes its old tail plus the new piece with id `idAtual`, and the queue size and the stack are kept |
| Controle.Jogo.Reservar | tetris.c:94-106 | an empty queue or a full stack is refused and nothing changes, the queue check coming first. Otherwise the old head goes on top of the stack and the queue becomes its old tail plus the new piece, with the same size |
| Controle.Jogo.MoverParaPilha | tetris.c:100-101 | the head of the queue leaves it and goes on top of the stack, with the ids still unique |
| Controle.Jogo.UsarReservada | tetris.c:107-115 | on an empty stack the answer is "no reserve" and nothing changes. Otherwise the old top is used and removed |
| Controle.Jogo.TrocarAtual | tetris.c:116-119 | option 4 succeeds exactly when neither container is empty and then applies `TrocaTopo(q, s, 1)`; otherwise nothing changes; ids stay unique |
| Controle.Jogo.TrocarTres | tetris.c:120-123 | option 5 succeeds exactly when `qtd >= 3` and `topo >= 2` and then applies `TrocaTopo(q, s, 3)`; otherwise nothing changes; ids stay unique |
| Controle.Jogo.Executar | tetris.c:83-129 | 0 ends, -1 (unreadable input) and any number outside 0..5 are rejected. For each option 1 to 5, the answer is refusal exactly under that command's condition and success otherwise. Option 1 fails exactly on an empty queue; option 2 on an empty queue, then on a full stack; option 3 on an empty stack; option 4 unless both are non-empty; option 5 unless `qtd >= 3` and `topo >= 2`. A success has that command's effect: play or reserve the old head and refill the queue with `gerarPeca(idAtual++)`; use the old top; or `TrocaTopo(q, s, 1)` / `TrocaTopo(q, s, 3)` with the counter kept. No command changes the size of the queue, a refused one changes nothing, and the invariant is kept |
| Controle.Iniciar | tetris.c:47-58 | the game starts with a full queue whose ids are 0, 1, 2, 3, 4 front to back, an empty stack and the counter at 5; the game, its queue, its stack and their arrays are all newly allocated, so the caller owns them |
| Controle.Jogo.Rodada | tetris.c:62-129 | one pass of the menu loop on a running game keeps the queue full and the invariant, and the answer is "end" exactly when the option read is 0 |
| Controle.Jogo.Partida | tetris.c:62-131 | the `do … while (opcao != 0)` loop: it runs one pass per option read and stops right after the first 0, never earlier. Every earlier answer is not "end", and the queue is full with unique ids after it |
| Controle.Sessao | tetris.c:47-131 | all of `main`: the start, then the menu loop on the game it created, with the same guarantees as `Partida` |

## Left out

- Console input and output are not modelled: the menu text, `printf` of states and messages, and `scanf` with the drain loop for unreadable input (tetris.c:62-81, 217-235). `Executar` takes the option as read, with -1 standing for input that `scanf` could not read. Its `Resposta` value stands for the message printed.
- `rand()` and `srand(time(NULL))` become a parameter `sorteio` (a non-negative draw, as `rand()` returns) of every command that generates a piece. `PreencherFila` and `Iniciar` take the five draws of the initial loop as a sequence.
- The `do … while (opcao != 0)` loop of `main` runs over a finite sequence of options read (`Partida`, `Sessao`), and the model stops when that sequence runs out. At end of input, `scanf` fails on every pass and the C loop spins forever on -1; this is not modelled.
- The uninitialised slots of the C arrays are arbitrary pieces in the model. No contract depends on their contents, and slots outside the queue's window or above `topo` are never read.
- A typed `-1` is read successfully by `scanf` and prints nothing, exactly like unreadable input, since the `default` branch stays silent for -1 (tetris.c:77-81, 127-128). The model therefore answers `EntradaInvalida` for it, as for unreadable input.
- The C `int` counter `idAtual` is an unbounded integer here. Overflow after 2^31 generated pieces is not modelled.
- The straight-line prelude of `main` is split into the `Jogo` constructor and `PreencherFila` so that each proof stays small. `Iniciar` composes the two.
