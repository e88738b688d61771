/**
 * The HPACK Huffman codebook (Appendix B of RFC 7541), and the tree it draws.
 *
 * `CODES` gives one (length, code) pair per octet in symbol order, and one for the end-of-string
 * symbol 256.  The code is canonical: codes of one length are consecutive numbers.  Each `Length`
 * lemma lists the symbols of one length in code order; `WholeTree` puts the tree together from the
 * longest codes up.
 */
module HpackCodes {
  import opened HuffmanTree

  const CODES: seq<seq<(nat, nat)>> := [
    [(13, 0x1ff8), (23, 0x7fffd8), (28, 0xfffffe2), (28, 0xfffffe3),
     (28, 0xfffffe4), (28, 0xfffffe5), (28, 0xfffffe6), (28, 0xfffffe7)],
    [(28, 0xfffffe8), (24, 0xffffea), (30, 0x3ffffffc), (28, 0xfffffe9),
     (28, 0xfffffea), (30, 0x3ffffffd), (28, 0xfffffeb), (28, 0xfffffec)],
    [(28, 0xfffffed), (28, 0xfffffee), (28, 0xfffffef), (28, 0xffffff0),
     (28, 0xffffff1), (28, 0xffffff2), (30, 0x3ffffffe), (28, 0xffffff3)],
    [(28, 0xffffff4), (28, 0xffffff5), (28, 0xffffff6), (28, 0xffffff7),
     (28, 0xffffff8), (28, 0xffffff9), (28, 0xffffffa), (28, 0xffffffb)],
    [(6, 0x14), (10, 0x3f8), (10, 0x3f9), (12, 0xffa), (13, 0x1ff9), (6, 0x15), (8, 0xf8), (11, 0x7fa)],
    [(10, 0x3fa), (10, 0x3fb), (8, 0xf9), (11, 0x7fb), (8, 0xfa), (6, 0x16), (6, 0x17), (6, 0x18)],
    [(5, 0x0), (5, 0x1), (5, 0x2), (6, 0x19), (6, 0x1a), (6, 0x1b), (6, 0x1c), (6, 0x1d)],
    [(6, 0x1e), (6, 0x1f), (7, 0x5c), (8, 0xfb), (15, 0x7ffc), (6, 0x20), (12, 0xffb), (10, 0x3fc)],
    [(13, 0x1ffa), (6, 0x21), (7, 0x5d), (7, 0x5e), (7, 0x5f), (7, 0x60), (7, 0x61), (7, 0x62)],
    [(7, 0x63), (7, 0x64), (7, 0x65), (7, 0x66), (7, 0x67), (7, 0x68), (7, 0x69), (7, 0x6a)],
    [(7, 0x6b), (7, 0x6c), (7, 0x6d), (7, 0x6e), (7, 0x6f), (7, 0x70), (7, 0x71), (7, 0x72)],
    [(8, 0xfc), (7, 0x73), (8, 0xfd), (13, 0x1ffb), (19, 0x7fff0), (13, 0x1ffc), (14, 0x3ffc), (6, 0x22)],
    [(15, 0x7ffd), (5, 0x3), (6, 0x23), (5, 0x4), (6, 0x24), (5, 0x5), (6, 0x25), (6, 0x26)],
    [(6, 0x27), (5, 0x6), (7, 0x74), (7, 0x75), (6, 0x28), (6, 0x29), (6, 0x2a), (5, 0x7)],
    [(6, 0x2b), (7, 0x76), (6, 0x2c), (5, 0x8), (5, 0x9), (6, 0x2d), (7, 0x77), (7, 0x78)],
    [(7, 0x79), (7, 0x7a), (7, 0x7b), (15, 0x7ffe), (11, 0x7fc), (14, 0x3ffd), (13, 0x1ffd), (28, 0xffffffc)],
    [(20, 0xfffe6), (22, 0x3fffd2), (20, 0xfffe7), (20, 0xfffe8),
     (22, 0x3fffd3), (22, 0x3fffd4), (22, 0x3fffd5), (23, 0x7fffd9)],
    [(22, 0x3fffd6), (23, 0x7fffda), (23, 0x7fffdb), (23, 0x7fffdc),
     (23, 0x7fffdd), (23, 0x7fffde), (24, 0xffffeb), (23, 0x7fffdf)],
    [(24, 0xffffec), (24, 0xffffed), (22, 0x3fffd7), (23, 0x7fffe0),
     (24, 0xffffee), (23, 0x7fffe1), (23, 0x7fffe2), (23, 0x7fffe3)],
    [(23, 0x7fffe4), (21, 0x1fffdc), (22, 0x3fffd8), (23, 0x7fffe5),
     (22, 0x3fffd9), (23, 0x7fffe6), (23, 0x7fffe7), (24, 0xffffef)],
    [(22, 0x3fffda), (21, 0x1fffdd), (20, 0xfffe9), (22, 0x3fffdb),
     (22, 0x3fffdc), (23, 0x7fffe8), (23, 0x7fffe9), (21, 0x1fffde)],
    [(23, 0x7fffea), (22, 0x3fffdd), (22, 0x3fffde), (24, 0xfffff0),
     (21, 0x1fffdf), (22, 0x3fffdf), (23, 0x7fffeb), (23, 0x7fffec)],
    [(21, 0x1fffe0), (21, 0x1fffe1), (22, 0x3fffe0), (21, 0x1fffe2),
     (23, 0x7fffed), (22, 0x3fffe1), (23, 0x7fffee), (23, 0x7fffef)],
    [(20, 0xfffea), (22, 0x3fffe2), (22, 0x3fffe3), (22, 0x3fffe4),
     (23, 0x7ffff0), (22, 0x3fffe5), (22, 0x3fffe6), (23, 0x7ffff1)],
    [(26, 0x3ffffe0), (26, 0x3ffffe1), (20, 0xfffeb), (19, 0x7fff1),
     (22, 0x3fffe7), (23, 0x7ffff2), (22, 0x3fffe8), (25, 0x1ffffec)],
    [(26, 0x3ffffe2), (26, 0x3ffffe3), (26, 0x3ffffe4), (27, 0x7ffffde),
     (27, 0x7ffffdf), (26, 0x3ffffe5), (24, 0xfffff1), (25, 0x1ffffed)],
    [(19, 0x7fff2), (21, 0x1fffe3), (26, 0x3ffffe6), (27, 0x7ffffe0),
     (27, 0x7ffffe1), (26, 0x3ffffe7), (27, 0x7ffffe2), (24, 0xfffff2)],
    [(21, 0x1fffe4), (21, 0x1fffe5), (26, 0x3ffffe8), (26, 0x3ffffe9),
     (28, 0xffffffd), (27, 0x7ffffe3), (27, 0x7ffffe4), (27, 0x7ffffe5)],
    [(20, 0xfffec), (24, 0xfffff3), (20, 0xfffed), (21, 0x1fffe6),
     (22, 0x3fffe9), (21, 0x1fffe7), (21, 0x1fffe8), (23, 0x7ffff3)],
    [(22, 0x3fffea), (22, 0x3fffeb), (25, 0x1ffffee), (25, 0x1ffffef),
     (24, 0xfffff4), (24, 0xfffff5), (26, 0x3ffffea), (23, 0x7ffff4)],
    [(26, 0x3ffffeb), (27, 0x7ffffe6), (26, 0x3ffffec), (26, 0x3ffffed),
     (27, 0x7ffffe7), (27, 0x7ffffe8), (27, 0x7ffffe9), (27, 0x7ffffea)],
    [(27, 0x7ffffeb), (28, 0xffffffe), (27, 0x7ffffec), (27, 0x7ffffed),
     (27, 0x7ffffee), (27, 0x7ffffef), (27, 0x7fffff0), (26, 0x3ffffee)],
    [(30, 0x3fffffff)]
  ]

  /** Length and value of one symbol's code; the rows hold eight symbols each. */
  function Code(symbol: nat): (nat, nat)
    requires symbol <= EOS
  {
    CODES[symbol / 8][symbol % 8]
  }

  /** The codebook as one sequence of 257 entries. */
  function Book(): (book: Codebook)
    ensures |book| == EOS + 1
  {
    seq(EOS + 1, symbol requires 0 <= symbol <= EOS => Code(symbol))
  }

  predicate Consecutive(symbols: Symbols, length: nat, code: nat) {
    match symbols
    case Nil => true
    case Then(s, rest) =>
      s <= EOS && Code(s) == (length, code) && Above(rest, s) && Consecutive(rest, length, code + 1)
  }

  lemma {:induction false} ConsecutiveInBook(symbols: Symbols, length: nat, code: nat)
    requires Consecutive(symbols, length, code)
    ensures InOrder(Book(), symbols, length, code)
  {
    match symbols
    case Nil =>
    case Then(s, rest) => ConsecutiveInBook(rest, length, code + 1);
  }

  lemma NoSymbols(length: nat, code: nat) returns (symbols: Symbols)
    ensures Consecutive(symbols, length, code) && Count(symbols) == 0 && symbols.Nil?
  {
    symbols := Nil;
  }

  lemma One(a: nat, length: nat, code: nat, rest: Symbols) returns (symbols: Symbols)
    requires a <= EOS && Code(a) == (length, code) && Above(rest, a) && Consecutive(rest, length, code + 1)
    ensures Consecutive(symbols, length, code) && Count(symbols) == 1 + Count(rest) && symbols == Then(a, rest)
  {
    symbols := Then(a, rest);
  }

  lemma Four(a: nat, b: nat, c: nat, d: nat, length: nat, code: nat, rest: Symbols) returns (symbols: Symbols)
    requires a < b < c < d <= EOS && Above(rest, d)
    requires Code(a) == (length, code) && Code(b) == (length, code + 1)
    requires Code(c) == (length, code + 2) && Code(d) == (length, code + 3)
    requires Consecutive(rest, length, code + 4)
    ensures Consecutive(symbols, length, code) && Count(symbols) == 4 + Count(rest)
    ensures symbols.Then? && symbols.symbol == a
  {
    symbols := One(d, length, code + 3, rest);
    symbols := One(c, length, code + 2, symbols);
    symbols := One(b, length, code + 1, symbols);
    symbols := One(a, length, code, symbols);
  }

  lemma Length30() returns (symbols: Symbols)
    ensures InOrder(Book(), symbols, 30, 0x3ffffffc) && Count(symbols) == 4
  {
    hide Consecutive, Count, InOrder;
    symbols := NoSymbols(30, 0x40000000);
    symbols := Four(10, 13, 22, 256, 30, 0x3ffffffc, symbols);
    ConsecutiveInBook(symbols, 30, 0x3ffffffc);
  }

  lemma Length28High() returns (symbols: Symbols)
    ensures Consecutive(symbols, 28, 0xffffff0) && Count(symbols) == 15
    ensures symbols.Then? && symbols.symbol == 19
  {
    hide Consecutive, Count, InOrder;
    symbols := NoSymbols(28, 0xfffffff);
    symbols := Four(31, 127, 220, 249, 28, 0xffffffb, symbols);
    symbols := Four(27, 28, 29, 30, 28, 0xffffff7, symbols);
    symbols := Four(23, 24, 25, 26, 28, 0xffffff3, symbols);
    symbols := One(21, 28, 0xffffff2, symbols);
    symbols := One(20, 28, 0xffffff1, symbols);
    symbols := One(19, 28, 0xffffff0, symbols);
  }

  lemma Length28() returns (symbols: Symbols)
    ensures InOrder(Book(), symbols, 28, 0xfffffe2) && Count(symbols) == 29
  {
    hide Consecutive, Count, InOrder;
    symbols := Length28High();
    symbols := Four(15, 16, 17, 18, 28, 0xfffffec, symbols);
    symbols := Four(8, 11, 12, 14, 28, 0xfffffe8, symbols);
    symbols := Four(4, 5, 6, 7, 28, 0xfffffe4, symbols);
    symbols := One(3, 28, 0xfffffe3, symbols);
    symbols := One(2, 28, 0xfffffe2, symbols);
    ConsecutiveInBook(symbols, 28, 0xfffffe2);
  }

  lemma Length27High() returns (symbols: Symbols)
    ensures Consecutive(symbols, 27, 0x7ffffe7) && Count(symbols) == 10
    ensures symbols.Then? && symbols.symbol == 244
  {
    hide Consecutive, Count, InOrder;
    symbols := NoSymbols(27, 0x7fffff1);
    symbols := Four(251, 252, 253, 254, 27, 0x7ffffed, symbols);
    symbols := Four(246, 247, 248, 250, 27, 0x7ffffe9, symbols);
    symbols := One(245, 27, 0x7ffffe8, symbols);
    symbols := One(244, 27, 0x7ffffe7, symbols);
  }

  lemma Length27() returns (symbols: Symbols)
    ensures InOrder(Book(), symbols, 27, 0x7ffffde) && Count(symbols) == 19
  {
    hide Consecutive, Count, InOrder;
    symbols := Length27High();
    symbols := Four(221, 222, 223, 241, 27, 0x7ffffe3, symbols);
    symbols := Four(204, 211, 212, 214, 27, 0x7ffffdf, symbols);
    symbols := One(203, 27, 0x7ffffde, symbols);
    ConsecutiveInBook(symbols, 27, 0x7ffffde);
  }

  lemma Length26High() returns (symbols: Symbols)
    ensures Consecutive(symbols, 26, 0x3ffffe7) && Count(symbols) == 8
    ensures symbols.Then? && symbols.symbol == 213
  {
    hide Consecutive, Count, InOrder;
    symbols := NoSymbols(26, 0x3ffffef);
    symbols := Four(240, 242, 243, 255, 26, 0x3ffffeb, symbols);
    symbols := Four(213, 218, 219, 238, 26, 0x3ffffe7, symbols);
  }

  lemma Length26() returns (symbols: Symbols)
    ensures InOrder(Book(), symbols, 26, 0x3ffffe0) && Count(symbols) == 15
  {
    hide Consecutive, Count, InOrder;
    symbols := Length26High();
    symbols := Four(201, 202, 205, 210, 26, 0x3ffffe3, symbols);
    symbols := One(200, 26, 0x3ffffe2, symbols);
    symbols := One(193, 26, 0x3ffffe1, symbols);
    symbols := One(192, 26, 0x3ffffe0, symbols);
    ConsecutiveInBook(symbols, 26, 0x3ffffe0);
  }

  lemma Length25() returns (symbols: Symbols)
    ensures InOrder(Book(), symbols, 25, 0x1ffffec) && Count(symbols) == 4
  {
    hide Consecutive, Count, InOrder;
    symbols := NoSymbols(25, 0x1fffff0);
    symbols := Four(199, 207, 234, 235, 25, 0x1ffffec, symbols);
    ConsecutiveInBook(symbols, 25, 0x1ffffec);
  }

  lemma Length24() returns (symbols: Symbols)
    ensures InOrder(Book(), symbols, 24, 0xffffea) && Count(symbols) == 12
  {
    hide Consecutive, Count, InOrder;
    symbols := NoSymbols(24, 0xfffff6);
    symbols := Four(215, 225, 236, 237, 24, 0xfffff2, symbols);
    symbols := Four(148, 159, 171, 206, 24, 0xffffee, symbols);
    symbols := Four(9, 142, 144, 145, 24, 0xffffea, symbols);
    ConsecutiveInBook(symbols, 24, 0xffffea);
  }

  lemma Length23High() returns (symbols: Symbols)
    ensures Consecutive(symbols, 23, 0x7fffe6) && Count(symbols) == 15
    ensures symbols.Then? && symbols.symbol == 157
  {
    hide Consecutive, Count, InOrder;
    symbols := NoSymbols(23, 0x7ffff5);
    symbols := Four(191, 197, 231, 239, 23, 0x7ffff1, symbols);
    symbols := Four(180, 182, 183, 188, 23, 0x7fffed, symbols);
    symbols := Four(166, 168, 174, 175, 23, 0x7fffe9, symbols);
    symbols := One(165, 23, 0x7fffe8, symbols);
    symbols := One(158, 23, 0x7fffe7, symbols);
    symbols := One(157, 23, 0x7fffe6, symbols);
  }

  lemma Length23() returns (symbols: Symbols)
    ensures InOrder(Book(), symbols, 23, 0x7fffd8) && Count(symbols) == 29
  {
    hide Consecutive, Count, InOrder;
    symbols := Length23High();
    symbols := Four(150, 151, 152, 155, 23, 0x7fffe2, symbols);
    symbols := Four(141, 143, 147, 149, 23, 0x7fffde, symbols);
    symbols := Four(137, 138, 139, 140, 23, 0x7fffda, symbols);
    symbols := One(135, 23, 0x7fffd9, symbols);
    symbols := One(1, 23, 0x7fffd8, symbols);
    ConsecutiveInBook(symbols, 23, 0x7fffd8);
  }

  lemma Length22High() returns (symbols: Symbols)
    ensures Consecutive(symbols, 22, 0x3fffdf) && Count(symbols) == 13
    ensures symbols.Then? && symbols.symbol == 173
  {
    hide Consecutive, Count, InOrder;
    symbols := NoSymbols(22, 0x3fffec);
    symbols := Four(198, 228, 232, 233, 22, 0x3fffe8, symbols);
    symbols := Four(187, 189, 190, 196, 22, 0x3fffe4, symbols);
    symbols := Four(178, 181, 185, 186, 22, 0x3fffe0, symbols);
    symbols := One(173, 22, 0x3fffdf, symbols);
  }

  lemma Length22() returns (symbols: Symbols)
    ensures InOrder(Book(), symbols, 22, 0x3fffd2) && Count(symbols) == 26
  {
    hide Consecutive, Count, InOrder;
    symbols := Length22High();
    symbols := Four(163, 164, 169, 170, 22, 0x3fffdb, symbols);
    symbols := Four(146, 154, 156, 160, 22, 0x3fffd7, symbols);
    symbols := Four(132, 133, 134, 136, 22, 0x3fffd3, symbols);
    symbols := One(129, 22, 0x3fffd2, symbols);
    ConsecutiveInBook(symbols, 22, 0x3fffd2);
  }

  lemma Length21() returns (symbols: Symbols)
    ensures InOrder(Book(), symbols, 21, 0x1fffdc) && Count(symbols) == 13
  {
    hide Consecutive, Count, InOrder;
    symbols := NoSymbols(21, 0x1fffe9);
    symbols := Four(217, 227, 229, 230, 21, 0x1fffe5, symbols);
    symbols := Four(177, 179, 209, 216, 21, 0x1fffe1, symbols);
    symbols := Four(161, 167, 172, 176, 21, 0x1fffdd, symbols);
    symbols := One(153, 21, 0x1fffdc, symbols);
    ConsecutiveInBook(symbols, 21, 0x1fffdc);
  }

  lemma Length20() returns (symbols: Symbols)
    ensures InOrder(Book(), symbols, 20, 0xfffe6) && Count(symbols) == 8
  {
    hide Consecutive, Count, InOrder;
    symbols := NoSymbols(20, 0xfffee);
    symbols := Four(184, 194, 224, 226, 20, 0xfffea, symbols);
    symbols := Four(128, 130, 131, 162, 20, 0xfffe6, symbols);
    ConsecutiveInBook(symbols, 20, 0xfffe6);
  }

  lemma Length19() returns (symbols: Symbols)
    ensures InOrder(Book(), symbols, 19, 0x7fff0) && Count(symbols) == 3
  {
    hide Consecutive, Count, InOrder;
    symbols := NoSymbols(19, 0x7fff3);
    symbols := One(208, 19, 0x7fff2, symbols);
    symbols := One(195, 19, 0x7fff1, symbols);
    symbols := One(92, 19, 0x7fff0, symbols);
    ConsecutiveInBook(symbols, 19, 0x7fff0);
  }

  lemma Length15() returns (symbols: Symbols)
    ensures InOrder(Book(), symbols, 15, 0x7ffc) && Count(symbols) == 3
  {
    hide Consecutive, Count, InOrder;
    symbols := NoSymbols(15, 0x7fff);
    symbols := One(123, 15, 0x7ffe, symbols);
    symbols := One(96, 15, 0x7ffd, symbols);
    symbols := One(60, 15, 0x7ffc, symbols);
    ConsecutiveInBook(symbols, 15, 0x7ffc);
  }

  lemma Length14() returns (symbols: Symbols)
    ensures InOrder(Book(), symbols, 14, 0x3ffc) && Count(symbols) == 2
  {
    hide Consecutive, Count, InOrder;
    symbols := NoSymbols(14, 0x3ffe);
    symbols := One(125, 14, 0x3ffd, symbols);
    symbols := One(94, 14, 0x3ffc, symbols);
    ConsecutiveInBook(symbols, 14, 0x3ffc);
  }

  lemma Length13() returns (symbols: Symbols)
    ensures InOrder(Book(), symbols, 13, 0x1ff8) && Count(symbols) == 6
  {
    hide Consecutive, Count, InOrder;
    symbols := NoSymbols(13, 0x1ffe);
    symbols := Four(64, 91, 93, 126, 13, 0x1ffa, symbols);
    symbols := One(36, 13, 0x1ff9, symbols);
    symbols := One(0, 13, 0x1ff8, symbols);
    ConsecutiveInBook(symbols, 13, 0x1ff8);
  }

  lemma Length12() returns (symbols: Symbols)
    ensures InOrder(Book(), symbols, 12, 0xffa) && Count(symbols) == 2
  {
    hide Consecutive, Count, InOrder;
    symbols := NoSymbols(12, 0xffc);
    symbols := One(62, 12, 0xffb, symbols);
    symbols := One(35, 12, 0xffa, symbols);
    ConsecutiveInBook(symbols, 12, 0xffa);
  }

  lemma Length11() returns (symbols: Symbols)
    ensures InOrder(Book(), symbols, 11, 0x7fa) && Count(symbols) == 3
  {
    hide Consecutive, Count, InOrder;
    symbols := NoSymbols(11, 0x7fd);
    symbols := One(124, 11, 0x7fc, symbols);
    symbols := One(43, 11, 0x7fb, symbols);
    symbols := One(39, 11, 0x7fa, symbols);
    ConsecutiveInBook(symbols, 11, 0x7fa);
  }

  lemma Length10() returns (symbols: Symbols)
    ensures InOrder(Book(), symbols, 10, 0x3f8) && Count(symbols) == 5
  {
    hide Consecutive, Count, InOrder;
    symbols := NoSymbols(10, 0x3fd);
    symbols := Four(34, 40, 41, 63, 10, 0x3f9, symbols);
    symbols := One(33, 10, 0x3f8, symbols);
    ConsecutiveInBook(symbols, 10, 0x3f8);
  }

  lemma Length8() returns (symbols: Symbols)
    ensures InOrder(Book(), symbols, 8, 0xf8) && Count(symbols) == 6
  {
    hide Consecutive, Count, InOrder;
    symbols := NoSymbols(8, 0xfe);
    symbols := Four(44, 59, 88, 90, 8, 0xfa, symbols);
    symbols := One(42, 8, 0xf9, symbols);
    symbols := One(38, 8, 0xf8, symbols);
    ConsecutiveInBook(symbols, 8, 0xf8);
  }

  lemma Length7High() returns (symbols: Symbols)
    ensures Consecutive(symbols, 7, 0x6c) && Count(symbols) == 16
    ensures symbols.Then? && symbols.symbol == 81
  {
    hide Consecutive, Count, InOrder;
    symbols := NoSymbols(7, 0x7c);
    symbols := Four(119, 120, 121, 122, 7, 0x78, symbols);
    symbols := Four(106, 107, 113, 118, 7, 0x74, symbols);
    symbols := Four(85, 86, 87, 89, 7, 0x70, symbols);
    symbols := Four(81, 82, 83, 84, 7, 0x6c, symbols);
  }

  lemma Length7() returns (symbols: Symbols)
    ensures InOrder(Book(), symbols, 7, 0x5c) && Count(symbols) == 32
  {
    hide Consecutive, Count, InOrder;
    symbols := Length7High();
    symbols := Four(77, 78, 79, 80, 7, 0x68, symbols);
    symbols := Four(73, 74, 75, 76, 7, 0x64, symbols);
    symbols := Four(69, 70, 71, 72, 7, 0x60, symbols);
    symbols := Four(58, 66, 67, 68, 7, 0x5c, symbols);
    ConsecutiveInBook(symbols, 7, 0x5c);
  }

  lemma Length6High() returns (symbols: Symbols)
    ensures Consecutive(symbols, 6, 0x21) && Count(symbols) == 13
    ensures symbols.Then? && symbols.symbol == 65
  {
    hide Consecutive, Count, InOrder;
    symbols := NoSymbols(6, 0x2e);
    symbols := Four(110, 112, 114, 117, 6, 0x2a, symbols);
    symbols := Four(103, 104, 108, 109, 6, 0x26, symbols);
    symbols := Four(95, 98, 100, 102, 6, 0x22, symbols);
    symbols := One(65, 6, 0x21, symbols);
  }

  lemma Length6() returns (symbols: Symbols)
    ensures InOrder(Book(), symbols, 6, 0x14) && Count(symbols) == 26
  {
    hide Consecutive, Count, InOrder;
    symbols := Length6High();
    symbols := Four(55, 56, 57, 61, 6, 0x1d, symbols);
    symbols := Four(51, 52, 53, 54, 6, 0x19, symbols);
    symbols := Four(37, 45, 46, 47, 6, 0x15, symbols);
    symbols := One(32, 6, 0x14, symbols);
    ConsecutiveInBook(symbols, 6, 0x14);
  }

  lemma Length5() returns (symbols: Symbols)
    ensures InOrder(Book(), symbols, 5, 0x0) && Count(symbols) == 10
  {
    hide Consecutive, Count, InOrder;
    symbols := NoSymbols(5, 0xa);
    symbols := Four(105, 111, 115, 116, 5, 0x6, symbols);
    symbols := Four(50, 97, 99, 101, 5, 0x2, symbols);
    symbols := One(49, 5, 0x1, symbols);
    symbols := One(48, 5, 0x0, symbols);
    ConsecutiveInBook(symbols, 5, 0x0);
  }

  lemma To25(book: Codebook, s30: Symbols, s28: Symbols, s27: Symbols, s26: Symbols, s25: Symbols)
      returns (level: Level)
    requires InOrder(book, s30, 30, 0x3ffffffc) && Count(s30) == 4
    requires InOrder(book, s28, 28, 0xfffffe2) && Count(s28) == 29
    requires InOrder(book, s27, 27, 0x7ffffde) && Count(s27) == 19
    requires InOrder(book, s26, 26, 0x3ffffe0) && Count(s26) == 15
    requires InOrder(book, s25, 25, 0x1ffffec) && Count(s25) == 4
    ensures level.Valid(book) && level.length == 25 && level.code == 0x1ffffec
    ensures |level.trees| == 20 && level.leaves == 71
  {
    hide Level.Valid, LeavesAt, InOrder, Count;
    level := Bottom(book);
    level := InFront(book, s30, level);
    level := Up(book, level, 0x1ffffffe, 2);
    level := Up(book, level, 0xfffffff, 1);
    level := InFront(book, s28, level);
    level := Up(book, level, 0x7fffff1, 15);
    level := InFront(book, s27, level);
    level := Up(book, level, 0x3ffffef, 17);
    level := InFront(book, s26, level);
    level := Up(book, level, 0x1fffff0, 16);
    level := InFront(book, s25, level);
  }

  lemma To20(book: Codebook, from: Level, s24: Symbols, s23: Symbols, s22: Symbols, s21: Symbols, s20: Symbols)
      returns (level: Level)
    requires from.Valid(book) && from.length == 25 && from.code == 0x1ffffec && |from.trees| == 20 && from.leaves == 71
    requires InOrder(book, s24, 24, 0xffffea) && Count(s24) == 12
    requires InOrder(book, s23, 23, 0x7fffd8) && Count(s23) == 29
    requires InOrder(book, s22, 22, 0x3fffd2) && Count(s22) == 26
    requires InOrder(book, s21, 21, 0x1fffdc) && Count(s21) == 13
    requires InOrder(book, s20, 20, 0xfffe6) && Count(s20) == 8
    ensures level.Valid(book) && level.length == 20 && level.code == 0xfffe6
    ensures |level.trees| == 26 && level.leaves == 159
  {
    hide Level.Valid, LeavesAt, InOrder, Count;
    level := from;
    level := Up(book, level, 0xfffff6, 10);
    level := InFront(book, s24, level);
    level := Up(book, level, 0x7ffff5, 11);
    level := InFront(book, s23, level);
    level := Up(book, level, 0x3fffec, 20);
    level := InFront(book, s22, level);
    level := Up(book, level, 0x1fffe9, 23);
    level := InFront(book, s21, level);
    level := Up(book, level, 0xfffee, 18);
    level := InFront(book, s20, level);
  }

  lemma To11(book: Codebook, from: Level, s19: Symbols, s15: Symbols, s14: Symbols, s13: Symbols, s12: Symbols,
             s11: Symbols) returns (level: Level)
    requires from.Valid(book) && from.length == 20 && from.code == 0xfffe6 && |from.trees| == 26 && from.leaves == 159
    requires InOrder(book, s19, 19, 0x7fff0) && Count(s19) == 3
    requires InOrder(book, s15, 15, 0x7ffc) && Count(s15) == 3
    requires InOrder(book, s14, 14, 0x3ffc) && Count(s14) == 2
    requires InOrder(book, s13, 13, 0x1ff8) && Count(s13) == 6
    requires InOrder(book, s12, 12, 0xffa) && Count(s12) == 2
    requires InOrder(book, s11, 11, 0x7fa) && Count(s11) == 3
    ensures level.Valid(book) && level.length == 11 && level.code == 0x7fa
    ensures |level.trees| == 6 && level.leaves == 178
  {
    hide Level.Valid, LeavesAt, InOrder, Count;
    level := from;
    level := Up(book, level, 0x7fff3, 13);
    level := InFront(book, s19, level);
    level := Up(book, level, 0x3fff8, 8);
    level := Up(book, level, 0x1fffc, 4);
    level := Up(book, level, 0xfffe, 2);
    level := Up(book, level, 0x7fff, 1);
    level := InFront(book, s15, level);
    level := Up(book, level, 0x3ffe, 2);
    level := InFront(book, s14, level);
    level := Up(book, level, 0x1ffe, 2);
    level := InFront(book, s13, level);
    level := Up(book, level, 0xffc, 4);
    level := InFront(book, s12, level);
    level := Up(book, level, 0x7fd, 3);
    level := InFront(book, s11, level);
  }

  lemma To5(book: Codebook, from: Level, s10: Symbols, s8: Symbols, s7: Symbols, s6: Symbols, s5: Symbols)
      returns (level: Level)
    requires from.Valid(book) && from.length == 11 && from.code == 0x7fa && |from.trees| == 6 && from.leaves == 178
    requires InOrder(book, s10, 10, 0x3f8) && Count(s10) == 5
    requires InOrder(book, s8, 8, 0xf8) && Count(s8) == 6
    requires InOrder(book, s7, 7, 0x5c) && Count(s7) == 32
    requires InOrder(book, s6, 6, 0x14) && Count(s6) == 26
    requires InOrder(book, s5, 5, 0x0) && Count(s5) == 10
    ensures level.Valid(book) && level.length == 5 && level.code == 0x0
    ensures |level.trees| == 32 && level.leaves == 257
  {
    hide Level.Valid, LeavesAt, InOrder, Count;
    level := from;
    level := Up(book, level, 0x3fd, 3);
    level := InFront(book, s10, level);
    level := Up(book, level, 0x1fc, 4);
    level := Up(book, level, 0xfe, 2);
    level := InFront(book, s8, level);
    level := Up(book, level, 0x7c, 4);
    level := InFront(book, s7, level);
    level := Up(book, level, 0x2e, 18);
    level := InFront(book, s6, level);
    level := Up(book, level, 0xa, 22);
    level := InFront(book, s5, level);
  }

  /** The codebook drawn as one full tree of 257 leaves. */
  lemma WholeTree() returns (t: Tree)
    ensures Draws(t, Book()) && Depth(t) <= 30 && Canonical([t])
  {
    var book := Book();
    var s30 := Length30();
    var s28 := Length28();
    var s27 := Length27();
    var s26 := Length26();
    var s25 := Length25();
    var level := To25(book, s30, s28, s27, s26, s25);
    var s24 := Length24();
    var s23 := Length23();
    var s22 := Length22();
    var s21 := Length21();
    var s20 := Length20();
    level := To20(book, level, s24, s23, s22, s21, s20);
    var s19 := Length19();
    var s15 := Length15();
    var s14 := Length14();
    var s13 := Length13();
    var s12 := Length12();
    var s11 := Length11();
    level := To11(book, level, s19, s15, s14, s13, s12, s11);
    var s10 := Length10();
    var s8 := Length8();
    var s7 := Length7();
    var s6 := Length6();
    var s5 := Length5();
    level := To5(book, level, s10, s8, s7, s6, s5);
    t := Top(book, level);
  }

  /** The published code is canonical: among codes of one length the larger symbol has the larger code. */
  lemma PublishedIsCanonical(s: nat, r: nat)
    requires s < r <= EOS && Code(s).0 == Code(r).0
    ensures Code(s).1 < Code(r).1
  {
    hide Code;
    var t := WholeTree();
    CodesAscend(Book(), t, s, r);
  }
}
