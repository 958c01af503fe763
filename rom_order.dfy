/** The order in which the ROM search of this driver finds the devices of a
    bus.  A ROM code is taken as the 64 bits the search reads, search bit 1
    (the least significant bit of the first ROM byte) at index 0.  At a
    collision the search takes the 1-branch first, so ROM a is found before
    ROM b when, at the first bit where the two differ, a has a 1.  This is
    the order of Maxim Application Note 187 with the branches mirrored. */
module RomOrder {
  import opened OneWireCodec

  const ROM_BITS: nat := 64
  const ROM_BYTES: nat := 8

  type Rom = s: seq<bool> | |s| == 64 witness seq(64, i => false)

  /** a and b agree before index i and part there, a taking the 1-branch. */
  predicate SplitsAt(a: seq<bool>, b: seq<bool>, i: nat) {
    i < |a| && i < |b| && a[..i] == b[..i] && a[i] && !b[i]
  }

  /** The search finds a before b. */
  ghost predicate Before(a: Rom, b: Rom) {
    exists i: nat :: SplitsAt(a, b, i)
  }

  /** The devices whose first |p| bits are p: those still taking part in a
      pass once the search has selected the bits p. */
  ghost function Match(devices: set<Rom>, p: seq<bool>): set<Rom>
    requires |p| <= ROM_BITS
  {
    set d | d in devices && d[..|p|] == p
  }

  /** At index n the selected bits p take the 1-branch although a device
      still in the pass has a 0 there: a point a later pass must come back to. */
  ghost predicate Branch(devices: set<Rom>, p: seq<bool>, n: nat)
    requires n < |p| <= ROM_BITS
  {
    p[n] && exists d :: d in Match(devices, p[..n]) && !d[n]
  }

  /** p has no such branch point at index c or later. */
  ghost predicate NoBranchFrom(devices: set<Rom>, p: seq<bool>, c: nat)
    requires |p| <= ROM_BITS
  {
    forall n | c <= n < |p| :: !Branch(devices, p, n)
  }

  /** From index `from` on, p takes the 0-branch only where no device still
      in the pass has a 1. */
  ghost predicate GreedyFrom(devices: set<Rom>, p: seq<bool>, from: nat)
    requires |p| <= ROM_BITS
  {
    forall n | from <= n < |p| :: !p[n] ==> forall d :: d in Match(devices, p[..n]) ==> !d[n]
  }

  /** s lists devices of the bus in search order, and every device it leaves
      out comes after its last element: s holds the first |s| devices the
      search order gives. */
  ghost predicate FirstInOrder(s: seq<Rom>, devices: set<Rom>) {
    (forall i | 0 <= i < |s| :: s[i] in devices) &&
    (forall i, j | 0 <= i < j < |s| :: Before(s[i], s[j])) &&
    (|s| > 0 ==> forall d | d in devices && d !in s :: Before(s[|s| - 1], d))
  }

  /** The ROM code held by an 8-byte slot: search bit n (1-based) is bit
      (n - 1) % 8 of byte (n - 1) / 8. */
  function RomOfBytes(b: seq<byte>): (r: Rom)
    requires |b| == ROM_BYTES
    ensures forall i | 0 <= i < ROM_BITS :: r[i] == Bit(b[i / 8], i % 8)
  {
    seq(64, i requires 0 <= i < 64 => Bit(b[i / 8], i % 8))
  }

  /** The ROM codes held by the first `count` slots of a buffer. */
  function Roms(buf: seq<byte>, count: nat): (s: seq<Rom>)
    requires 8 * count <= |buf|
    ensures |s| == count
    ensures forall k | 0 <= k < count :: s[k] == RomOfBytes(buf[8 * k .. 8 * k + 8])
  {
    seq(count, k requires 0 <= k < count => RomOfBytes(buf[8 * k .. 8 * k + 8]))
  }

  /** The most recent code of a non-empty list of codes. */
  function Latest(s: seq<Rom>): Rom
    requires |s| > 0
  {
    s[|s| - 1]
  }

  /** What the codes found so far tell about the search: they are the first
      ones in search order; once the search is done they are every device on
      the bus; until then lastCollision is the deepest branch point on the
      latest one (0 before the first pass). */
  ghost predicate SearchState(devices: set<Rom>, roms: seq<Rom>, lastCollision: nat, done: bool) {
    FirstInOrder(roms, devices) &&
    (done ==> forall d :: d in devices <==> d in roms) &&
    (!done && roms == [] ==> lastCollision == 0) &&
    (!done && roms != [] ==>
      1 <= lastCollision <= ROM_BITS &&
      Branch(devices, Latest(roms), lastCollision - 1) &&
      NoBranchFrom(devices, Latest(roms), lastCollision))
  }

  /** The first index at or after `from` where two different ROM codes
      that agree before `from` differ. */
  lemma {:induction false} FirstDifference(a: Rom, b: Rom, from: nat) returns (k: nat)
    requires from <= ROM_BITS && a[..from] == b[..from] && a != b
    ensures from <= k < ROM_BITS && a[..k] == b[..k] && a[k] != b[k]
    decreases ROM_BITS - from
  {
    if from == ROM_BITS {
      assert false;
    } else if a[from] != b[from] {
      k := from;
    } else {
      assert a[..from + 1] == a[..from] + [a[from]];
      assert b[..from + 1] == b[..from] + [b[from]];
      k := FirstDifference(a, b, from + 1);
    }
  }

  /** Two different ROM codes are always ordered one way or the other. */
  lemma BeforeTotal(a: Rom, b: Rom)
    requires a != b
    ensures Before(a, b) != Before(b, a)
  {
    var k := FirstDifference(a, b, 0);
    if a[k] {
      assert SplitsAt(a, b, k);
    } else {
      assert SplitsAt(b, a, k);
    }
    BeforeAsymmetric(a, b);
  }

  lemma BeforeAsymmetric(a: Rom, b: Rom)
    ensures !(Before(a, b) && Before(b, a))
  {
    forall i: nat, j: nat | SplitsAt(a, b, i) && SplitsAt(b, a, j) ensures false {
    }
  }

  lemma BeforeTransitive(a: Rom, b: Rom, c: Rom)
    requires Before(a, b) && Before(b, c)
    ensures Before(a, c)
  {
    var i: nat :| SplitsAt(a, b, i);
    var j: nat :| SplitsAt(b, c, j);
    if i < j {
      assert b[..j][i] == c[..j][i];
      assert a[..i] == c[..i] by {
        assert b[..j][..i] == c[..j][..i];
      }
      assert SplitsAt(a, c, i);
    } else {
      assert i != j;
      assert a[..i][j] == b[..i][j];
      assert a[..j] == c[..j] by {
        assert a[..i][..j] == b[..i][..j];
      }
      assert SplitsAt(a, c, j);
    }
  }

  /** A ROM code whose bits were chosen greedily from index m on comes,
      among the devices agreeing with it before m, first in search order. */
  lemma GreedyComesFirst(devices: set<Rom>, p: Rom, d: Rom, m: nat)
    requires p in devices && d in devices && d != p
    requires m <= ROM_BITS && d[..m] == p[..m]
    requires GreedyFrom(devices, p, m)
    ensures Before(p, d)
  {
    var k := FirstDifference(p, d, m);
    assert d in Match(devices, p[..k]);
    assert SplitsAt(p, d, k);
  }

  /** The first pass, which breaks every tie towards 1, finds the device
      that comes first in search order. */
  lemma FirstPassFindsFirst(devices: set<Rom>, p: Rom)
    requires p in devices && GreedyFrom(devices, p, 0)
    ensures FirstInOrder([p], devices)
  {
    forall d | d in devices && d !in [p] ensures Before(p, d) {
      GreedyComesFirst(devices, p, d, 0);
    }
  }

  /** A pass that replays the previous ROM code r up to its deepest branch
      point l, turns to 0 there and breaks every later tie towards 1 finds
      the device that directly follows r in search order. */
  lemma NextPassFindsNext(devices: set<Rom>, r: Rom, p: Rom, l: nat)
    requires r in devices && p in devices && l < ROM_BITS
    requires Branch(devices, r, l) && NoBranchFrom(devices, r, l + 1)
    requires p[..l] == r[..l] && !p[l] && GreedyFrom(devices, p, l + 1)
    ensures Before(r, p)
    ensures forall d | d in devices && Before(r, d) :: d == p || Before(p, d)
  {
    assert SplitsAt(r, p, l);
    forall d | d in devices && Before(r, d) && d != p ensures Before(p, d) {
      var j: nat :| SplitsAt(r, d, j);
      assert d in Match(devices, r[..j]);
      assert Branch(devices, r, j);
      if j < l {
        assert p[..l][..j] == r[..l][..j];
        assert p[..l][j] == r[..l][j];
        assert SplitsAt(p, d, j);
      } else {
        assert j == l;
        assert d[..l + 1] == d[..l] + [d[l]];
        assert p[..l + 1] == p[..l] + [p[l]];
        GreedyComesFirst(devices, p, d, l + 1);
      }
    }
  }

  /** A pass with no branch point at all found the last device in search
      order. */
  lemma NoBranchFindsLast(devices: set<Rom>, p: Rom)
    requires NoBranchFrom(devices, p, 0)
    ensures forall d | d in devices :: !Before(p, d)
  {
    forall d | d in devices && Before(p, d) ensures false {
      var i: nat :| SplitsAt(p, d, i);
      assert d in Match(devices, p[..i]);
      assert Branch(devices, p, i);
    }
  }

  /** Adding the device that directly follows the last one keeps a list the
      first devices in search order. */
  lemma FirstInOrderExtend(s: seq<Rom>, devices: set<Rom>, p: Rom)
    requires FirstInOrder(s, devices) && |s| > 0 && p in devices
    requires Before(s[|s| - 1], p)
    requires forall d | d in devices && Before(s[|s| - 1], d) :: d == p || Before(p, d)
    ensures FirstInOrder(s + [p], devices)
  {
    var t := s + [p];
    var r := s[|s| - 1];
    forall i, j | 0 <= i < j < |t| ensures Before(t[i], t[j]) {
      if j == |s| && i < |s| - 1 {
        BeforeTransitive(s[i], r, p);
      }
    }
    forall d | d in devices && d !in t ensures Before(p, d) {
      assert d !in s;
    }
  }

  /** Once the last device in search order is listed, the list holds every
      device of the bus. */
  lemma FirstInOrderComplete(s: seq<Rom>, devices: set<Rom>)
    requires FirstInOrder(s, devices) && |s| > 0
    requires forall d | d in devices :: !Before(s[|s| - 1], d)
    ensures forall d :: d in devices <==> d in s
  {
  }

  /** Selecting one more bit keeps, of the devices still in the pass, those
      that have that bit. */
  lemma MatchExtend(devices: set<Rom>, p: seq<bool>, b: bool)
    requires |p| < ROM_BITS
    ensures Match(devices, p + [b]) == set d | d in Match(devices, p) && d[|p|] == b
  {
    forall d | d in devices ensures (d[..|p| + 1] == p + [b]) <==> (d[..|p|] == p && d[|p|] == b) {
      assert d[..|p| + 1] == d[..|p|] + [d[|p|]];
      if d[..|p| + 1] == p + [b] {
        assert d[..|p| + 1][..|p|] == (p + [b])[..|p|];
      }
    }
  }

  /** Selecting one more bit leaves the earlier branch points as they were. */
  lemma BranchExtend(devices: set<Rom>, p: seq<bool>, b: bool, n: nat)
    requires n < |p| < ROM_BITS
    ensures Branch(devices, p + [b], n) == Branch(devices, p, n)
  {
    assert (p + [b])[..n] == p[..n];
  }

  /** Selecting one more bit leaves the earlier greedy choices as they were. */
  lemma GreedyExtend(devices: set<Rom>, p: seq<bool>, b: bool, from: nat)
    requires |p| < ROM_BITS && GreedyFrom(devices, p, from)
    requires from <= |p| && !b ==> forall d | d in Match(devices, p) :: !d[|p|]
    ensures GreedyFrom(devices, p + [b], from)
  {
    forall n | from <= n < |p| + 1
      ensures !(p + [b])[n] ==> forall d | d in Match(devices, (p + [b])[..n]) :: !d[n]
    {
      assert (p + [b])[..n] == if n < |p| then p[..n] else p;
    }
  }

  /** Selecting one more bit, which is a branch point exactly when `newBranch`,
      keeps track of the deepest branch point. */
  lemma DeepestBranchExtend(devices: set<Rom>, p: seq<bool>, b: bool, c: nat, newBranch: bool, c': nat)
    requires |p| < ROM_BITS && c <= |p|
    requires c == 0 || Branch(devices, p, c - 1)
    requires NoBranchFrom(devices, p, c)
    requires newBranch == Branch(devices, p + [b], |p|)
    requires c' == if newBranch then |p| + 1 else c
    ensures c' == 0 || Branch(devices, p + [b], c' - 1)
    ensures NoBranchFrom(devices, p + [b], c')
  {
    if c > 0 {
      BranchExtend(devices, p, b, c - 1);
    }
    forall n | c <= n < |p| ensures !Branch(devices, p + [b], n) {
      BranchExtend(devices, p, b, n);
    }
  }

  /** The 8-byte slot b holds the search bits p: search bit i + 1 is bit
      i % 8 of byte i / 8. */
  ghost predicate HoldsBits(b: seq<byte>, p: seq<bool>) {
    |b| == ROM_BYTES && |p| <= ROM_BITS && forall i | 0 <= i < |p| :: Bit(b[i / 8], i % 8) == p[i]
  }

  /** Byte x with bit k set to v: set by `|=` or cleared by `&= ~` with the
      mask 1 << k, as OW_SearchBlock does. */
  function WithBit(x: byte, k: nat, v: bool): byte
    requires k < 8
  {
    if v then x | ((1 as byte) << k) else x & !((1 as byte) << k)
  }

  /** The slot b with search bit n + 1 stored as v. */
  function SetBit(b: seq<byte>, n: nat, v: bool): (r: seq<byte>)
    requires |b| == ROM_BYTES && n < ROM_BITS
    ensures |r| == ROM_BYTES
  {
    b[n / 8 := WithBit(b[n / 8], n % 8, v)]
  }

  /** Storing bit k of a byte changes that bit only. */
  lemma WithBitAt(x: byte, k: nat, v: bool, i: nat)
    requires k < 8 && i < 8
    ensures Bit(WithBit(x, k, v), i) == if i == k then v else Bit(x, i)
  {
    if v {
      SetBitOn(x, k, i);
    } else {
      SetBitOff(x, k, i);
    }
  }

  /** Setting bit k of a byte changes that bit only. */
  lemma SetBitOn(x: byte, k: nat, i: nat)
    requires k < 8 && i < 8
    ensures Bit(x | ((1 as byte) << k), i) == (i == k || Bit(x, i))
  {
    BitOr(x, (1 as byte) << k, i);
    BitOfPower(k, i);
  }

  /** Clearing bit k of a byte changes that bit only. */
  lemma SetBitOff(x: byte, k: nat, i: nat)
    requires k < 8 && i < 8
    ensures Bit(x & !((1 as byte) << k), i) == (i != k && Bit(x, i))
  {
    BitAndNot(x, k, i);
  }

  /** Search bit i + 1 of the slot after storing bit n + 1. */
  lemma SetBitAt(b: seq<byte>, n: nat, v: bool, i: nat)
    requires |b| == ROM_BYTES && n < ROM_BITS && i < ROM_BITS
    ensures Bit(SetBit(b, n, v)[i / 8], i % 8) == if i == n then v else Bit(b[i / 8], i % 8)
  {
    var j, k := i / 8, i % 8;
    assert i == 8 * j + k && n == 8 * (n / 8) + n % 8;
    if j == n / 8 {
      assert k == n % 8 <==> i == n;
      WithBitAt(b[j], n % 8, v, k);
    }
  }

  /** Storing the next selected bit keeps the earlier ones. */
  lemma HoldsBitsStep(b: seq<byte>, p: seq<bool>, v: bool)
    requires HoldsBits(b, p) && |p| < ROM_BITS
    ensures HoldsBits(SetBit(b, |p|, v), p + [v])
  {
    forall i | 0 <= i < |p| + 1 ensures Bit(SetBit(b, |p|, v)[i / 8], i % 8) == (p + [v])[i] {
      SetBitAt(b, |p|, v, i);
    }
  }

  /** A slot holding all 64 selected bits holds that ROM code. */
  lemma HoldsAllBits(b: seq<byte>, p: seq<bool>)
    requires HoldsBits(b, p) && |p| == ROM_BITS
    ensures RomOfBytes(b) == p
  {
  }

  /** The slots of a buffer are read independently of what follows them. */
  lemma RomsSnoc(buf: seq<byte>, count: nat)
    requires 8 * count + 8 <= |buf|
    ensures Roms(buf, count + 1) == Roms(buf, count) + [RomOfBytes(buf[8 * count .. 8 * count + 8])]
  {
  }

  lemma RomsPrefix(a: seq<byte>, b: seq<byte>, count: nat)
    requires 8 * count <= |a| && 8 * count <= |b|
    requires forall j | 0 <= j < 8 * count :: a[j] == b[j]
    ensures Roms(a, count) == Roms(b, count)
  {
    forall k | 0 <= k < count ensures a[8 * k .. 8 * k + 8] == b[8 * k .. 8 * k + 8] {
      var sa, sb := a[8 * k .. 8 * k + 8], b[8 * k .. 8 * k + 8];
      forall j | 0 <= j < 8 ensures sa[j] == sb[j] {
        assert a[8 * k + j] == b[8 * k + j];
      }
    }
  }


  /** What a pass of OW_SearchBlock starts from: when `replay`, r is the
      code found by the previous pass, a device, and `last` (lastCollision)
      is one past its deepest branch point; the first pass has last == 0. */
  ghost predicate ReplayOk(devices: set<Rom>, last: nat, r: Rom, replay: bool) {
    (replay ==> 1 <= last <= ROM_BITS && r in devices && Branch(devices, r, last - 1)) &&
    (!replay ==> last == 0)
  }

  /** What a pass of OW_SearchBlock has established once it selected the
      bits p.  `active` are the devices still taking part.  From index
      `last` on, a tie went to 1.  When `replay`, the pass follows r before
      its deepest branch point last - 1 and turns to 0 there.  `cc`
      (currentCollision) is one past the deepest branch point of p, 0 when
      there is none. */
  ghost predicate PassOk(devices: set<Rom>, p: seq<bool>, active: set<Rom>, last: nat, r: Rom, replay: bool, cc: nat) {
    |p| <= ROM_BITS && active == Match(devices, p) && (devices != {} ==> active != {}) &&
    GreedyFrom(devices, p, last) &&
    (replay ==>
      (forall i | 0 <= i < |p| && i + 1 < last :: p[i] == r[i]) &&
      (1 <= last <= |p| ==> !p[last - 1])) &&
    cc <= |p| && (cc == 0 || Branch(devices, p, cc - 1)) && NoBranchFrom(devices, p, cc)
  }

  /** The devices still taking part disagree at bit n: a collision. */
  ghost predicate Disagree(active: set<Rom>, n: nat)
    requires n < ROM_BITS
  {
    (exists d :: d in active && d[n]) && (exists d :: d in active && !d[n])
  }

  /** The bit a pass selects at bit n among the devices still taking part:
      their common bit when they agree; on a collision, the bit of the
      replayed code r before its deepest branch point `last` (1-based), 0 at
      it and 1 after it. */
  ghost function Selected(active: set<Rom>, n: nat, last: nat, r: Rom): bool
    requires n < ROM_BITS
  {
    if forall d | d in active :: d[n] then true
    else if forall d | d in active :: !d[n] then false
    else if n + 1 < last then r[n]
    else n + 1 != last
  }

  /** One bit of a pass keeps PassOk.  With all1 (no device drove the first
      read slot low) and all0 (none drove the second), the selection is the
      common bit when there is one, and on a collision: r's bit before
      lastCollision, 0 at it and 1 after it.  A collision resolved to 1
      moves currentCollision to this bit. */
  lemma PassStep(devices: set<Rom>, p: seq<bool>, active: set<Rom>, last: nat, r: Rom, replay: bool, cc: nat,
                 sel: bool, newcc: nat, next: set<Rom>)
    requires ReplayOk(devices, last, r, replay)
    requires PassOk(devices, p, active, last, r, replay, cc) && |p| < ROM_BITS && active != {}
    requires sel == Selected(active, |p|, last, r)
    requires newcc == if Disagree(active, |p|) && sel
                      then |p| + 1 else cc
    requires forall d :: d in next <==> d in active && d[|p|] == sel
    ensures PassOk(devices, p + [sel], next, last, r, replay, newcc)
  {
    var n := |p|;
    SelectionKeeps(devices, p, active, last, r, replay, cc, sel, next);
    BranchAt(devices, p, active, sel);
    DeepestBranchExtend(devices, p, sel, cc, Disagree(active, n) && sel, newcc);
  }

  /** The part of PassStep about the selected bit: the devices keeping up
      with it, the greedy choices and the replay of the previous code. */
  lemma SelectionKeeps(devices: set<Rom>, p: seq<bool>, active: set<Rom>, last: nat, r: Rom, replay: bool, cc: nat,
                       sel: bool, next: set<Rom>)
    requires ReplayOk(devices, last, r, replay)
    requires PassOk(devices, p, active, last, r, replay, cc) && |p| < ROM_BITS && active != {}
    requires sel == Selected(active, |p|, last, r)
    requires forall d :: d in next <==> d in active && d[|p|] == sel
    ensures next == Match(devices, p + [sel]) && next != {} && GreedyFrom(devices, p + [sel], last)
    ensures replay ==>
      (forall i | 0 <= i < |p| + 1 && i + 1 < last :: (p + [sel])[i] == r[i]) &&
      (last <= |p| + 1 ==> !(p + [sel])[last - 1])
    ensures exists d :: d in active && d[|p|] == sel
  {
    var n := |p|;
    if replay && n < last {
      assert r[..n] == p;
    }
    ReplayStep(devices, p, active, last, r, replay, sel);
    SelectionTakesPart(active, n, last, r, sel);
    StepMatch(devices, p, active, sel, next);
    GreedyExtend(devices, p, sel, last);
  }

  /** Selecting a bit that some device keeps up with is a branch point
      exactly when the devices still taking part disagree there and the
      1-branch is taken. */
  lemma BranchAt(devices: set<Rom>, p: seq<bool>, active: set<Rom>, sel: bool)
    requires |p| < ROM_BITS && active == Match(devices, p)
    requires exists d :: d in active && d[|p|] == sel
    ensures Branch(devices, p + [sel], |p|) ==
      (Disagree(active, |p|) && sel)
  {
    assert (p + [sel])[..|p|] == p;
  }

  /** While replaying the previous code r, the selection keeps following r
      before its deepest branch point and turns to 0 there. */
  lemma ReplayStep(devices: set<Rom>, p: seq<bool>, active: set<Rom>, last: nat, r: Rom, replay: bool, sel: bool)
    requires |p| < ROM_BITS && active == Match(devices, p)
    requires replay ==>
      1 <= last <= ROM_BITS && r in devices && Branch(devices, r, last - 1) &&
      (forall i | 0 <= i < |p| && i + 1 < last :: p[i] == r[i]) &&
      (last <= |p| ==> !p[last - 1])
    requires replay && |p| < last ==> r in active
    requires sel == Selected(active, |p|, last, r)
    ensures replay ==>
      (forall i | 0 <= i < |p| + 1 && i + 1 < last :: (p + [sel])[i] == r[i]) &&
      (last <= |p| + 1 ==> !(p + [sel])[last - 1])
  {
    var n := |p|;
    if replay && n + 1 == last {
      var d :| d in Match(devices, r[..n]) && !d[n];
      assert r[..n] == p;
      assert d in active;
    }
  }

  /** Some device still taking part has the selected bit. */
  lemma SelectionTakesPart(active: set<Rom>, n: nat, last: nat, r: Rom, sel: bool)
    requires n < ROM_BITS && active != {} && (n + 1 < last ==> r in active)
    requires sel == Selected(active, n, last, r)
    ensures exists d :: d in active && d[n] == sel
  {
    var d0 :| d0 in active;
    if d0[n] != sel {
      var d1 :| d1 in active && d1[n] == !d0[n];
      assert d1[n] == sel;
    }
  }

  /** The devices keeping up with one more selected bit are those of
      `active` with that bit, and some remain. */
  lemma StepMatch(devices: set<Rom>, p: seq<bool>, active: set<Rom>, sel: bool, next: set<Rom>)
    requires |p| < ROM_BITS && active == Match(devices, p)
    requires exists d :: d in active && d[|p|] == sel
    requires forall d :: d in next <==> d in active && d[|p|] == sel
    ensures next == Match(devices, p + [sel]) && next != {}
  {
    MatchExtend(devices, p, sel);
    var d :| d in active && d[|p|] == sel;
    assert d in next;
  }

  /** Where every pass starts: nothing selected, every device taking part. */
  lemma PassBegins(devices: set<Rom>, last: nat, r: Rom, replay: bool)
    requires ReplayOk(devices, last, r, replay)
    ensures PassOk(devices, [], devices, last, r, replay, 0)
  {
    assert forall d: Rom :: d[..0] == [];
  }

  /** The code a pass replays: the latest code found, whose deepest branch
      point is lastCollision; the first pass replays nothing. */
  lemma ReplayTarget(devices: set<Rom>, buf: seq<byte>, found: nat, lastCollision: nat) returns (last: Rom)
    requires 8 * found <= |buf|
    requires SearchState(devices, Roms(buf, found), lastCollision, false)
    ensures found > 0 ==> last == Latest(Roms(buf, found)) && last == RomOfBytes(buf[8 * found - 8 .. 8 * found])
    ensures ReplayOk(devices, lastCollision, last, found > 0)
  {
    last := seq(ROM_BITS, i => false);
    if found > 0 {
      last := Latest(Roms(buf, found));
    }
  }

  /** With no device on the bus there is nothing more to find. */
  lemma NothingLeft(devices: set<Rom>, roms: seq<Rom>, lastCollision: nat)
    requires SearchState(devices, roms, lastCollision, false) && devices == {}
    ensures SearchState(devices, roms, lastCollision, true)
  {
  }

  /** The search state after one more pass: an aborted pass (no device
      answered) ends the search with the codes found so far; a completed pass
      adds its code, and ends the search when that code had no branch
      point. */
  lemma PassOutcome(devices: set<Rom>, before: seq<byte>, after: seq<byte>, found: nat, lastCollision: nat,
                    last: Rom, p: seq<bool>, aborted: bool, cc: nat, newFound: nat, newCollision: nat, done: bool)
    requires 8 * found + 8 <= |before| && |after| == |before|
    requires SearchState(devices, Roms(before, found), lastCollision, false)
    requires found > 0 ==> last == Latest(Roms(before, found))
    requires aborted ==> devices == {} && after == before
    requires !aborted ==>
      (forall j | 0 <= j < 8 * found :: after[j] == before[j]) &&
      |p| == ROM_BITS && HoldsBits(after[8 * found .. 8 * found + 8], p) && Match(devices, p) != {} &&
      PassOk(devices, p, Match(devices, p), lastCollision, last, found > 0, cc)
    requires newFound == (if aborted then found else found + 1)
    requires newCollision == (if aborted then lastCollision else cc)
    requires done == (aborted || cc == 0)
    ensures SearchState(devices, Roms(after, newFound), newCollision, done)
  {
    if aborted {
      NothingLeft(devices, Roms(before, found), lastCollision);
    } else {
      StoredRoms(before, after, found, p);
      AfterPass(devices, Roms(before, found), lastCollision, last, p, cc);
    }
  }

  /** What a completed pass has found: the code p it selected is a device;
      the first pass finds the first device in search order and a replaying
      pass the one right after r; with no branch point on p, no device comes
      after it, and otherwise the next pass replays p. */
  lemma PassEnds(devices: set<Rom>, p: seq<bool>, last: nat, r: Rom, replay: bool, cc: nat)
    requires |p| == ROM_BITS && Match(devices, p) != {}
    requires ReplayOk(devices, last, r, replay)
    requires PassOk(devices, p, Match(devices, p), last, r, replay, cc)
    requires replay ==> NoBranchFrom(devices, r, last)
    ensures p in devices
    ensures !replay ==> FirstInOrder([p], devices)
    ensures replay ==> Before(r, p) && forall d | d in devices && Before(r, d) :: d == p || Before(p, d)
    ensures cc == 0 ==> forall d | d in devices :: !Before(p, d)
    ensures cc > 0 ==> cc <= ROM_BITS && Branch(devices, p, cc - 1) && NoBranchFrom(devices, p, cc)
  {
    var d :| d in Match(devices, p);
    assert d == d[..ROM_BITS] == p;
    if replay {
      assert p[..last - 1] == r[..last - 1];
      NextPassFindsNext(devices, r, p, last - 1);
    } else {
      FirstPassFindsFirst(devices, p);
    }
    if cc == 0 {
      NoBranchFindsLast(devices, p);
    }
  }

  /** The slot a completed pass wrote holds its code, and the slots before
      it are untouched: the codes found grow by exactly that code. */
  lemma StoredRoms(before: seq<byte>, after: seq<byte>, found: nat, p: seq<bool>)
    requires 8 * found + 8 <= |before| && |after| == |before|
    requires forall j | 0 <= j < 8 * found :: after[j] == before[j]
    requires |p| == ROM_BITS && HoldsBits(after[8 * found .. 8 * found + 8], p)
    ensures Roms(after, found + 1) == Roms(before, found) + [p]
  {
    HoldsAllBits(after[8 * found .. 8 * found + 8], p);
    RomsPrefix(after, before, found);
    RomsSnoc(after, found);
  }

  /** A completed pass keeps the search state: its code comes right after
      the codes found so far, and it ends the search exactly when it had no
      branch point. */
  lemma AfterPass(devices: set<Rom>, roms: seq<Rom>, lastCollision: nat, last: Rom, p: seq<bool>, cc: nat)
    requires SearchState(devices, roms, lastCollision, false)
    requires roms != [] ==> last == Latest(roms)
    requires |p| == ROM_BITS && Match(devices, p) != {}
    requires PassOk(devices, p, Match(devices, p), lastCollision, last, roms != [], cc)
    ensures SearchState(devices, roms + [p], cc, cc == 0)
  {
    PassEnds(devices, p, lastCollision, last, roms != [], cc);
    if roms != [] {
      FirstInOrderExtend(roms, devices, p);
    }
    if cc == 0 {
      FirstInOrderComplete(roms + [p], devices);
    }
  }

}
