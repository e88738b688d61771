/**
 * The static table in order (Appendix A of RFC 7541): by name and then by value, with one exception the
 * appendix has itself, `accept` behind `accept-ranges`.
 */
module HpackStatic {
  import opened HpackTable

  /** The first i characters agree and then `a` is smaller, or ends. */
  predicate Precedes(a: string, b: string, i: nat) {
    i < |b| && i <= |a| && a[..i] == b[..i] && (i < |a| ==> a[i] < b[i])
  }

  predicate InOrder(x: (string, string), y: (string, string)) {
    (exists i: nat :: i <= |x.0| && Precedes(x.0, y.0, i))
        || (x.0 == y.0 && exists i: nat :: i <= |x.1| && Precedes(x.1, y.1, i))
  }

  lemma ByName(x: (string, string), y: (string, string), i: nat)
    requires Precedes(x.0, y.0, i)
    ensures InOrder(x, y)
  {
  }

  lemma ByValue(x: (string, string), y: (string, string), i: nat)
    requires x.0 == y.0 && Precedes(x.1, y.1, i)
    ensures InOrder(x, y)
  {
  }

  lemma From0(k: nat)
    requires 0 <= k < 6 && k != 17
    ensures InOrder(StaticEntry(k), StaticEntry(k + 1))
  {
    if k == 0 { ByName(StaticEntry(0), StaticEntry(1), 1); }
    else if k == 1 { ByValue(StaticEntry(1), StaticEntry(2), 0); }
    else if k == 2 { ByName(StaticEntry(2), StaticEntry(3), 1); }
    else if k == 3 { ByValue(StaticEntry(3), StaticEntry(4), 1); }
    else if k == 4 { ByName(StaticEntry(4), StaticEntry(5), 1); }
    else if k == 5 { ByValue(StaticEntry(5), StaticEntry(6), 4); }
  }

  lemma From6(k: nat)
    requires 6 <= k < 12 && k != 17
    ensures InOrder(StaticEntry(k), StaticEntry(k + 1))
  {
    if k == 6 { ByName(StaticEntry(6), StaticEntry(7), 2); }
    else if k == 7 { ByValue(StaticEntry(7), StaticEntry(8), 2); }
    else if k == 8 { ByValue(StaticEntry(8), StaticEntry(9), 2); }
    else if k == 9 { ByValue(StaticEntry(9), StaticEntry(10), 0); }
    else if k == 10 { ByValue(StaticEntry(10), StaticEntry(11), 0); }
    else if k == 11 { ByValue(StaticEntry(11), StaticEntry(12), 2); }
  }

  lemma From12(k: nat)
    requires 12 <= k < 18 && k != 17
    ensures InOrder(StaticEntry(k), StaticEntry(k + 1))
  {
    if k == 12 { ByValue(StaticEntry(12), StaticEntry(13), 0); }
    else if k == 13 { ByName(StaticEntry(13), StaticEntry(14), 0); }
    else if k == 14 { ByName(StaticEntry(14), StaticEntry(15), 7); }
    else if k == 15 { ByName(StaticEntry(15), StaticEntry(16), 7); }
    else if k == 16 { ByName(StaticEntry(16), StaticEntry(17), 7); }
  }

  lemma From18(k: nat)
    requires 18 <= k < 24 && k != 17
    ensures InOrder(StaticEntry(k), StaticEntry(k + 1))
  {
    if k == 18 { ByName(StaticEntry(18), StaticEntry(19), 4); }
    else if k == 19 { ByName(StaticEntry(19), StaticEntry(20), 1); }
    else if k == 20 { ByName(StaticEntry(20), StaticEntry(21), 1); }
    else if k == 21 { ByName(StaticEntry(21), StaticEntry(22), 1); }
    else if k == 22 { ByName(StaticEntry(22), StaticEntry(23), 0); }
    else if k == 23 { ByName(StaticEntry(23), StaticEntry(24), 1); }
  }

  lemma From24(k: nat)
    requires 24 <= k < 30 && k != 17
    ensures InOrder(StaticEntry(k), StaticEntry(k + 1))
  {
    if k == 24 { ByName(StaticEntry(24), StaticEntry(25), 8); }
    else if k == 25 { ByName(StaticEntry(25), StaticEntry(26), 8); }
    else if k == 26 { ByName(StaticEntry(26), StaticEntry(27), 9); }
    else if k == 27 { ByName(StaticEntry(27), StaticEntry(28), 9); }
    else if k == 28 { ByName(StaticEntry(28), StaticEntry(29), 8); }
    else if k == 29 { ByName(StaticEntry(29), StaticEntry(30), 8); }
  }

  lemma From30(k: nat)
    requires 30 <= k < 36 && k != 17
    ensures InOrder(StaticEntry(k), StaticEntry(k + 1))
  {
    if k == 30 { ByName(StaticEntry(30), StaticEntry(31), 2); }
    else if k == 31 { ByName(StaticEntry(31), StaticEntry(32), 0); }
    else if k == 32 { ByName(StaticEntry(32), StaticEntry(33), 0); }
    else if k == 33 { ByName(StaticEntry(33), StaticEntry(34), 1); }
    else if k == 34 { ByName(StaticEntry(34), StaticEntry(35), 3); }
    else if k == 35 { ByName(StaticEntry(35), StaticEntry(36), 0); }
  }

  lemma From36(k: nat)
    requires 36 <= k < 42 && k != 17
    ensures InOrder(StaticEntry(k), StaticEntry(k + 1))
  {
    if k == 36 { ByName(StaticEntry(36), StaticEntry(37), 0); }
    else if k == 37 { ByName(StaticEntry(37), StaticEntry(38), 0); }
    else if k == 38 { ByName(StaticEntry(38), StaticEntry(39), 4); }
    else if k == 39 { ByName(StaticEntry(39), StaticEntry(40), 3); }
    else if k == 40 { ByName(StaticEntry(40), StaticEntry(41), 3); }
    else if k == 41 { ByName(StaticEntry(41), StaticEntry(42), 3); }
  }

  lemma From42(k: nat)
    requires 42 <= k < 48 && k != 17
    ensures InOrder(StaticEntry(k), StaticEntry(k + 1))
  {
    if k == 42 { ByName(StaticEntry(42), StaticEntry(43), 0); }
    else if k == 43 { ByName(StaticEntry(43), StaticEntry(44), 1); }
    else if k == 44 { ByName(StaticEntry(44), StaticEntry(45), 1); }
    else if k == 45 { ByName(StaticEntry(45), StaticEntry(46), 0); }
    else if k == 46 { ByName(StaticEntry(46), StaticEntry(47), 0); }
    else if k == 47 { ByName(StaticEntry(47), StaticEntry(48), 10); }
  }

  lemma From48(k: nat)
    requires 48 <= k < 54 && k != 17
    ensures InOrder(StaticEntry(k), StaticEntry(k + 1))
  {
    if k == 48 { ByName(StaticEntry(48), StaticEntry(49), 0); }
    else if k == 49 { ByName(StaticEntry(49), StaticEntry(50), 1); }
    else if k == 50 { ByName(StaticEntry(50), StaticEntry(51), 3); }
    else if k == 51 { ByName(StaticEntry(51), StaticEntry(52), 2); }
    else if k == 52 { ByName(StaticEntry(52), StaticEntry(53), 0); }
    else if k == 53 { ByName(StaticEntry(53), StaticEntry(54), 2); }
  }

  lemma From54(k: nat)
    requires 54 <= k < 60 && k != 17
    ensures InOrder(StaticEntry(k), StaticEntry(k + 1))
  {
    if k == 54 { ByName(StaticEntry(54), StaticEntry(55), 1); }
    else if k == 55 { ByName(StaticEntry(55), StaticEntry(56), 0); }
    else if k == 56 { ByName(StaticEntry(56), StaticEntry(57), 0); }
    else if k == 57 { ByName(StaticEntry(57), StaticEntry(58), 0); }
    else if k == 58 { ByName(StaticEntry(58), StaticEntry(59), 1); }
    else if k == 59 { ByName(StaticEntry(59), StaticEntry(60), 0); }
  }

  /** Every entry stands before the next, but for the one pair. */
  lemma StaticOrder(k: nat)
    requires k + 1 < STATIC_ENTRIES && k != 17
    ensures InOrder(StaticEntry(k), StaticEntry(k + 1))
  {
    if k < 6 { From0(k); }
    else if k < 12 { From6(k); }
    else if k < 18 { From12(k); }
    else if k < 24 { From18(k); }
    else if k < 30 { From24(k); }
    else if k < 36 { From30(k); }
    else if k < 42 { From36(k); }
    else if k < 48 { From42(k); }
    else if k < 54 { From48(k); }
    else { From54(k); }
  }

  /** The ends of the table and the pair out of order. */
  lemma StaticEnds()
    ensures StaticEntry(0) == (":authority", "") && StaticEntry(60) == ("www-authenticate", "")
    ensures StaticEntry(17) == ("accept-ranges", "") && StaticEntry(18) == ("accept", "")
  {
  }
}
