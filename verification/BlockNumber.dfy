/** Sixteen-bit block numbers and the absolute block indices behind them. */
module BlockNumber {
  import opened Modular

  type u16 = n: int | 0 <= n < 65536

  /** next_block: increment, and restart at rollover when sixteen bits wrap. */
  function NextBlock(block: u16, rollover: u16): u16 {
    var b := (block + 1) % 65536;
    if b == 0 then rollover else b
  }

  /** The number carried by the block of absolute index i; index 0 is the
      request itself, acknowledged by ACK 0. */
  function Number(i: nat, rollover: u16): u16 {
    if i < 65536 then i else Cycle(i, rollover)
  }

  /** How many consecutive blocks carry different numbers. */
  function Period(rollover: u16): (p: nat)
    ensures 1 <= p <= 65536
  {
    65536 - rollover
  }

  function Cycle(i: nat, rollover: u16): u16
    requires i >= 65536
  {
    var k := (i - 65536) % Period(rollover);
    assert 0 <= k < Period(rollover);
    rollover + k
  }

  /** Iterating next_block from 1 walks through the numbers of 1, 2, 3, ... */
  lemma NextIsNext(i: nat, rollover: u16)
    ensures NextBlock(Number(i, rollover), rollover) == Number(i + 1, rollover)
  {
    if i >= 65536 {
      var p := Period(rollover);
      var k := (i - 65536) % p;
      assert i + 1 - 65536 == (i - 65536) + 1;
      ModSucc(i - 65536, p);
      if k + 1 == p {
        assert Number(i, rollover) == 65535;
        assert Number(i + 1, rollover) == rollover;
      } else {
        assert Number(i, rollover) == rollover + k < 65535;
        assert Number(i + 1, rollover) == rollover + k + 1;
      }
    } else if i == 65535 {
      assert 0 % Period(rollover) == 0;
      assert Number(65536, rollover) == rollover;
    }
  }

  /** Which blocks carry the same number: a later one carries the number of an earlier
      one if and only if the earlier one is in the part that is numbered again, from the
      rollover value on, and they are a multiple of the period apart. */
  lemma NumbersCollide(i: nat, j: nat, rollover: u16)
    requires i < j
    ensures Number(i, rollover) == Number(j, rollover) <==> i >= rollover && (j - i) % Period(rollover) == 0
  {
    var p := Period(rollover);
    if j < 65536 {
      if i >= rollover {
        ModUnique(j - i, p, 0, j - i);
      }
    } else if i >= 65536 {
      ModSame(i - 65536, j - 65536, p);
    } else {
      var k := (j - 65536) % p;
      assert Number(j, rollover) == rollover + k;
      if i >= rollover {
        ModUnique(i - rollover, p, 0, i - rollover);
        ModAddPeriod(j - 65536, p);
        ModSame(i - rollover, j - rollover, p);
      }
    }
  }

  lemma ModAddPeriod(a: nat, p: nat)
    requires p > 0
    ensures (a + p) % p == a % p
  {
    assert a + p == (a / p + 1) * p + a % p;
    ModUnique(a + p, p, a / p + 1, a % p);
  }

  /** Comparing sixteen-bit numbers is comparing indices, as long as the two
      blocks are less than one period apart. */
  lemma SameNumberSameIndex(i: nat, j: nat, rollover: u16)
    requires i < j + Period(rollover) && j < i + Period(rollover)
    ensures Number(i, rollover) == Number(j, rollover) <==> i == j
  {
    hide Number;
    var p := Period(rollover);
    if i < j {
      NumbersCollide(i, j, rollover);
      ModUnique(j - i, p, 0, j - i);
    } else if j < i {
      NumbersCollide(j, i, rollover);
      ModUnique(i - j, p, 0, i - j);
    }
  }
}
