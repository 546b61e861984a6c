/**
 * The MPIN protocol API over BN254: hashing an identity to G1 (H), the
 * token and client computations, the server check, point addition on
 * encoded points, and the Pollard-kangaroo search that recovers a PIN error.
 *
 * Curve arithmetic, encodings and the pairing are not modelled: they enter
 * through the interface value Curve (for G1, G2 and the pairing target GT)
 * and Group (for the Fp12 arithmetic kangaroo uses). Where a property needs
 * an algebraic law of those operations, the lemma states the law it uses
 * as a precondition.
 */
module Mpin {
  import Fp

  newtype byte = x: int | 0 <= x < 256

  datatype Option<T> = None | Some(value: T)

  /** The order r of G1, G2 and GT (curve.r). */
  const R: nat := 0x2523648240000001BA344D8000000007FF9F800000000010A10000000000000D

  const MAXPIN: int := 10000
  const TS: nat := 10
  const TRAP: nat := 200

  function Pow2(n: nat): (r: nat)
    ensures r >= 1
  {
    if n == 0 then 1 else 2 * Pow2(n - 1)
  }

  /** Python's int.bit_length(). */
  function BitLength(x: nat): nat
  {
    if x == 0 then 0 else 1 + BitLength(x / 2)
  }

  // ---------------------------------------------------------------------
  // Interfaces

  /**
   * What the protocol needs from the curve library: ECp.set(x), fromBytes
   * and toBytes on G1 and G2, point addition, negation and scalar
   * multiplication, the fixed G2 generator, and the pairing functions.
   */
  datatype Curve<!G1, !G2, !GT> = Curve(
    setX: int -> Option<G1>,
    decodeG1: seq<byte> -> Option<G1>,
    encodeG1: G1 -> seq<byte>,
    infinity: G1,
    addG1: (G1, G1) -> G1,
    negG1: G1 -> G1,
    mulG1: (int, G1) -> G1,
    decodeG2: seq<byte> -> Option<G2>,
    encodeG2: G2 -> seq<byte>,
    addG2: (G2, G2) -> G2,
    generatorG2: G2,
    doubleAte: (G2, G1, G2, G1) -> GT,
    fexp: GT -> GT,
    pairing: (G2, G1) -> GT,
    isOne: GT -> bool,
    encodeGT: GT -> seq<byte>,
    emptyGT: GT)

  /**
   * The Fp12 operations kangaroo uses: one, *=, usqr, conj, and key, the
   * integer value of the first base-field coefficient (t.a.a.a.int()).
   */
  datatype Group<!T> = Group(one: T, mul: (T, T) -> T, usqr: T -> T, conj: T -> T, key: T -> nat)

  /** Associativity, the identity, and usqr as squaring. */
  ghost predicate Lawful<T(!new)>(g: Group<T>)
  {
    && (forall x, y, z {:trigger g.mul(g.mul(x, y), z), g.mul(x, g.mul(y, z))} ::
          g.mul(g.mul(x, y), z) == g.mul(x, g.mul(y, z)))
    && (forall x :: g.mul(g.one, x) == x && g.mul(x, g.one) == x)
    && (forall x :: g.usqr(x) == g.mul(x, x))
  }

  /** f^n */
  function Pow<T(!new)>(g: Group<T>, f: T, n: nat): T
  {
    if n == 0 then g.one else g.mul(Pow(g, f, n - 1), f)
  }

  lemma {:induction false} PowAdd<T(!new)>(g: Group<T>, f: T, m: nat, n: nat)
    requires Lawful(g)
    ensures Pow(g, f, m + n) == g.mul(Pow(g, f, m), Pow(g, f, n))
    decreases n
  {
    if n == 0 {
      assert Pow(g, f, m + n) == Pow(g, f, m);
    } else {
      PowAdd(g, f, m, n - 1);
      assert Pow(g, f, m + n) == g.mul(Pow(g, f, m + n - 1), f);
    }
  }

  lemma {:induction false} Pow2Monotone(i: nat, j: nat)
    requires i <= j
    ensures Pow2(i) <= Pow2(j)
    decreases j
  {
    if i < j {
      Pow2Monotone(i, j - 1);
    }
  }

  // ---------------------------------------------------------------------
  // Pollard's kangaroos

  /** The first m entries of the jump table: distance[k] == 2^k and table[k] == f^(2^k). */
  ghost predicate IsTablePrefix<T(!new)>(g: Group<T>, f: T, distance: seq<nat>, table: seq<T>, m: nat)
  {
    && |distance| == m && |table| == m
    && forall k :: 0 <= k < m ==> distance[k] == Pow2(k) && table[k] == Pow(g, f, Pow2(k))
  }

  /** The whole jump table, TS entries. */
  ghost predicate IsJumpTable<T(!new)>(g: Group<T>, f: T, distance: seq<nat>, table: seq<T>)
  {
    IsTablePrefix(g, f, distance, table, TS)
  }

  lemma TableExtend<T(!new)>(g: Group<T>, f: T, distance: seq<nat>, table: seq<T>, m: nat)
    requires IsTablePrefix(g, f, distance, table, m)
    ensures IsTablePrefix(g, f, distance + [Pow2(m)], table + [Pow(g, f, Pow2(m))], m + 1)
  {
  }

  lemma PowOne<T(!new)>(g: Group<T>, f: T)
    requires Lawful(g)
    ensures Pow(g, f, Pow2(0)) == f
  {
    assert Pow(g, f, 1) == g.mul(g.one, f);
  }

  /** Squaring f^(2^m) gives f^(2^(m+1)). */
  lemma PowDouble<T(!new)>(g: Group<T>, f: T, m: nat)
    requires Lawful(g)
    ensures Pow(g, f, Pow2(m + 1)) == g.usqr(Pow(g, f, Pow2(m)))
  {
    PowAdd(g, f, Pow2(m), Pow2(m));
    assert Pow2(m + 1) == Pow2(m) + Pow2(m);
  }

  /** A jump by table[i] from w == e0 * f^d lands on e0 * f^(d + distance[i]). */
  lemma Jump<T(!new)>(g: Group<T>, f: T, distance: seq<nat>, table: seq<T>, e0: T, w: T, d: nat, i: nat)
    requires Lawful(g) && IsJumpTable(g, f, distance, table) && i < TS
    requires w == g.mul(e0, Pow(g, f, d))
    ensures g.mul(w, table[i]) == g.mul(e0, Pow(g, f, d + distance[i]))
    ensures 1 <= distance[i] <= Pow2(TS - 1) == 512
  {
    assert distance[i] == Pow2(i) && table[i] == Pow(g, f, Pow2(i));
    PowAdd(g, f, d, distance[i]);
    assert g.mul(g.mul(e0, Pow(g, f, d)), table[i]) == g.mul(e0, g.mul(Pow(g, f, d), table[i]));
    Pow2Monotone(i, TS - 1);
    Pow2Small();
  }

  /** Builds the jump table by repeated unitary squaring. */
  method BuildTable<T(!new)>(g: Group<T>, f: T) returns (distance: seq<nat>, table: seq<T>)
    requires Lawful(g)
    ensures IsJumpTable(g, f, distance, table)
  {
    var t := f;
    PowOne(g, f);
    distance, table := [], [];
    var s: nat := 1;
    for m := 0 to TS
      invariant IsTablePrefix(g, f, distance, table, m)
      invariant s == Pow2(m) && t == Pow(g, f, Pow2(m))
    {
      TableExtend(g, f, distance, table, m);
      distance := distance + [s];
      table := table + [t];
      PowDouble(g, f, m);
      s, t := 2 * s, g.usqr(t);
    }
  }

  /**
   * The position and the distance travelled after k jumps from start. Each
   * jump is chosen by the key of the current position: i == key mod TS, then
   * the position is multiplied by table[i] and the distance grows by
   * distance[i]. Both kangaroos follow this rule.
   */
  function Walk<T>(g: Group<T>, start: T, distance: seq<nat>, table: seq<T>, k: nat): (T, nat)
    requires |distance| == TS && |table| == TS
  {
    if k == 0 then (start, 0)
    else
      var p := Walk(g, start, distance, table, k - 1);
      var i := g.key(p.0) % TS;
      (g.mul(p.0, table[i]), p.1 + distance[i])
  }

  /** After k jumps the kangaroo sits at start * f^d, having travelled d with k <= d <= 512k. */
  lemma {:induction false} WalkPosition<T(!new)>(g: Group<T>, f: T, distance: seq<nat>, table: seq<T>, start: T, k: nat)
    requires Lawful(g) && IsJumpTable(g, f, distance, table)
    ensures Walk(g, start, distance, table, k).0 == g.mul(start, Pow(g, f, Walk(g, start, distance, table, k).1))
    ensures k <= Walk(g, start, distance, table, k).1 <= 512 * k
  {
    if k == 0 {
      assert Pow(g, f, 0) == g.one;
      assert Walk(g, start, distance, table, k) == (start, 0);
      assert g.mul(start, g.one) == start;
    } else {
      WalkPosition(g, f, distance, table, start, k - 1);
      var p := Walk(g, start, distance, table, k - 1);
      var i := g.key(p.0) % TS;
      Jump(g, f, distance, table, start, p.0, p.1, i);
      var q := Walk(g, start, distance, table, k);
      assert q.0 == g.mul(start, Pow(g, f, p.1 + distance[i]));
      assert q.1 == p.1 + distance[i] && 1 <= distance[i] <= 512;
      assert q.0 == g.mul(start, Pow(g, f, q.1));
      assert k <= q.1 <= 512 * k;
    }
  }

  /** Over any table of natural distances, the distance travelled never decreases. */
  lemma {:induction false} WalkNondecreasing<T>(g: Group<T>, start: T, distance: seq<nat>, table: seq<T>, i: nat, j: nat)
    requires |distance| == TS && |table| == TS && i <= j
    ensures Walk(g, start, distance, table, i).1 <= Walk(g, start, distance, table, j).1
    decreases j
  {
    if i < j {
      WalkNondecreasing(g, start, distance, table, i, j - 1);
    }
  }

  /**
   * Over the jump table, every jump travels at least 1, so the distance
   * strictly increases: j - i further jumps add at least j - i.
   */
  lemma {:induction false} WalkMonotone<T(!new)>(g: Group<T>, f: T, distance: seq<nat>, table: seq<T>, start: T, i: nat, j: nat)
    requires IsJumpTable(g, f, distance, table) && i <= j
    ensures Walk(g, start, distance, table, i).1 + (j - i) <= Walk(g, start, distance, table, j).1
    decreases j
  {
    if i < j {
      WalkMonotone(g, f, distance, table, start, i, j - 1);
      var p := Walk(g, start, distance, table, j - 1);
      var k := g.key(p.0) % TS;
      assert distance[k] == Pow2(k);
      assert Walk(g, start, distance, table, j).1 == p.1 + distance[k];
    }
  }

  /** Sets the trap: TRAP jumps of the tame kangaroo from 1. */
  method SetTrap<T(!new)>(g: Group<T>, f: T, distance: seq<nat>, table: seq<T>) returns (t: T, dn: nat)
    requires Lawful(g) && IsJumpTable(g, f, distance, table)
    ensures (t, dn) == Walk(g, g.one, distance, table, TRAP)
    ensures t == Pow(g, f, dn)
    ensures TRAP <= dn <= TRAP * Pow2(TS - 1)
  {
    t, dn := g.one, 0;
    for j := 0 to TRAP
      invariant (t, dn) == Walk(g, g.one, distance, table, j)
    {
      var i := g.key(t) % TS;
      t := g.mul(t, table[i]);
      dn := dn + distance[i];
    }
    WalkPosition(g, f, distance, table, g.one, TRAP);
    Pow2Small();
  }

  /** w is the trap t or its conjugate, the two positions the wild kangaroo watches for. */
  predicate OnTrap<T(==)>(g: Group<T>, t: T, w: T)
  {
    w == t || w == g.conj(t)
  }

  /**
   * The answer when the wild kangaroo lands on the trap after travelling dm:
   * dm - dn on t itself, dn - dm on its conjugate, and 0 when dm - dn has
   * reached MAXPIN.
   */
  function TrapAnswer<T(==)>(g: Group<T>, t: T, dn: nat, w: T, dm: nat): int
  {
    if dm - dn >= MAXPIN then 0 else if w == t then dm - dn else dn - dm
  }

  /**
   * The answer of the wild walk from e0, watched from jump k on: 0 once
   * dm - dn has reached MAXPIN or all 4 * TRAP jumps are used, the verdict
   * of the next position if it is on the trap, and otherwise the answer from
   * jump k + 1.
   */
  function WildFrom<T(==)>(g: Group<T>, e0: T, t: T, dn: nat, distance: seq<nat>, table: seq<T>, k: nat): int
    requires |distance| == TS && |table| == TS && k <= 4 * TRAP
    decreases 4 * TRAP - k
  {
    var p := Walk(g, e0, distance, table, k);
    if p.1 - dn >= MAXPIN || k == 4 * TRAP then 0
    else
      var q := Walk(g, e0, distance, table, k + 1);
      if OnTrap(g, t, q.0) then TrapAnswer(g, t, dn, q.0, q.1)
      else WildFrom(g, e0, t, dn, distance, table, k + 1)
  }

  /**
   * Releases the wild kangaroo from e0 and watches for it landing on the
   * trap t or on conj(t); the answer is that of the specification WildFrom.
   */
  method WildWalk<T(==)>(g: Group<T>, e0: T, t: T, dn: nat, distance: seq<nat>, table: seq<T>) returns (res: int)
    requires |distance| == TS && |table| == TS
    ensures res == WildFrom(g, e0, t, dn, distance, table, 0)
  {
    var ft := g.conj(t);
    var w := e0;
    var steps := 0;
    var dm: nat := 0;
    res := 0;
    while dm - dn < MAXPIN
      invariant steps <= 4 * TRAP
      invariant (w, dm) == Walk(g, e0, distance, table, steps)
      invariant WildFrom(g, e0, t, dn, distance, table, 0) == WildFrom(g, e0, t, dn, distance, table, steps)
      decreases 4 * TRAP + 1 - steps
    {
      steps := steps + 1;
      if steps > 4 * TRAP {
        break;
      }
      var i := g.key(w) % TS;
      w := g.mul(w, table[i]);
      dm := dm + distance[i];
      if w == t {
        res := dm - dn;
        break;
      }
      if w == ft {
        res := dn - dm;
        break;
      }
    }
    if steps > 4 * TRAP || dm - dn >= MAXPIN {
      res := 0;
    }
  }

  /**
   * The first landing on the trap decides: if jump j is the first after k
   * that lands on t or conj(t), and it lands with dm - dn below MAXPIN, the
   * answer is its signed distance.
   */
  lemma {:induction false} WildFirstLanding<T>(g: Group<T>, e0: T, t: T, dn: nat, distance: seq<nat>, table: seq<T>, k: nat, j: nat)
    requires |distance| == TS && |table| == TS && k < j <= 4 * TRAP
    requires OnTrap(g, t, Walk(g, e0, distance, table, j).0)
    requires Walk(g, e0, distance, table, j).1 - dn < MAXPIN
    requires forall i :: k < i < j ==> !OnTrap(g, t, Walk(g, e0, distance, table, i).0)
    ensures var q := Walk(g, e0, distance, table, j);
            WildFrom(g, e0, t, dn, distance, table, k) == if q.0 == t then q.1 - dn else dn - q.1
    decreases j - k
  {
    WalkNondecreasing(g, e0, distance, table, k, j);
    if k + 1 < j {
      assert !OnTrap(g, t, Walk(g, e0, distance, table, k + 1).0);
      WildFirstLanding(g, e0, t, dn, distance, table, k + 1, j);
    }
  }

  /**
   * Conversely, a nonzero answer comes from such a first landing: some jump
   * j after k within the 4 * TRAP bound lands on t or conj(t), no jump in
   * between does, dm - dn is below MAXPIN there, and the answer is the
   * signed distance. So the answer is 0 whenever no landing happens before
   * the step bound or before dm - dn reaches MAXPIN.
   */
  lemma {:induction false} WildNonzeroIsLanding<T>(g: Group<T>, e0: T, t: T, dn: nat, distance: seq<nat>, table: seq<T>, k: nat)
    requires |distance| == TS && |table| == TS && k <= 4 * TRAP
    requires WildFrom(g, e0, t, dn, distance, table, k) != 0
    ensures exists j :: k < j <= 4 * TRAP && IsFirstLanding(g, e0, t, dn, distance, table, k, j)
    decreases 4 * TRAP - k
  {
    var q := Walk(g, e0, distance, table, k + 1);
    if OnTrap(g, t, q.0) {
      assert IsFirstLanding(g, e0, t, dn, distance, table, k, k + 1);
    } else {
      WildNonzeroIsLanding(g, e0, t, dn, distance, table, k + 1);
      var j :| k + 1 < j <= 4 * TRAP && IsFirstLanding(g, e0, t, dn, distance, table, k + 1, j);
      assert IsFirstLanding(g, e0, t, dn, distance, table, k, j);
    }
  }

  /**
   * Jump j is the first after k on t or conj(t), it lands with dm - dn below
   * MAXPIN, and WildFrom from k answers its signed distance.
   */
  ghost predicate IsFirstLanding<T>(g: Group<T>, e0: T, t: T, dn: nat, distance: seq<nat>, table: seq<T>, k: nat, j: nat)
    requires |distance| == TS && |table| == TS && k < j <= 4 * TRAP
  {
    var q := Walk(g, e0, distance, table, j);
    && OnTrap(g, t, q.0)
    && q.1 - dn < MAXPIN
    && (forall i :: k < i < j ==> !OnTrap(g, t, Walk(g, e0, distance, table, i).0))
    && WildFrom(g, e0, t, dn, distance, table, k) == if q.0 == t then q.1 - dn else dn - q.1
  }

  /** distance[k] == 2^k for k < TS. */
  function Distances(): (d: seq<nat>)
    ensures |d| == TS && forall k :: 0 <= k < TS ==> d[k] == Pow2(k)
  {
    seq(TS, (k: int) requires 0 <= k => Pow2(k))
  }

  /** table[k] == f^(2^k) for k < TS. */
  function JumpTable<T(!new)>(g: Group<T>, f: T): (table: seq<T>)
    ensures |table| == TS && forall k :: 0 <= k < TS ==> table[k] == Pow(g, f, Pow2(k))
  {
    seq(TS, (k: int) requires 0 <= k => Pow(g, f, Pow2(k)))
  }

  /** A jump table is the one for f. */
  lemma JumpTableUnique<T(!new)>(g: Group<T>, f: T, distance: seq<nat>, table: seq<T>)
    requires IsJumpTable(g, f, distance, table)
    ensures distance == Distances() && table == JumpTable(g, f)
  {
  }

  /**
   * What kangaroo(E, F) answers: the wild walk from e watched for the trap
   * that TRAP jumps of the tame kangaroo set, over the table for f.
   */
  function KangarooAnswer<T(==,!new)>(g: Group<T>, e: T, f: T): int
  {
    var trap := Walk(g, g.one, Distances(), JumpTable(g, f), TRAP);
    WildFrom(g, e, trap.0, trap.1, Distances(), JumpTable(g, f), 0)
  }

  /**
   * kangaroo(E, F) with E and F already decoded; decoding them from bytes is
   * not modelled.
   */
  method Kangaroo<T(==,!new)>(g: Group<T>, e: T, f: T) returns (res: int)
    requires Lawful(g)
    ensures res == KangarooAnswer(g, e, f)
  {
    var distance, table := BuildTable(g, f);
    JumpTableUnique(g, f, distance, table);
    var t, dn := SetTrap(g, f, distance, table);
    res := WildWalk(g, e, t, dn, distance, table);
  }

  /**
   * A nonzero answer is sound: with dn the trap distance, e * f^dm equals
   * the trap f^dn (and the answer is dm - dn < MAXPIN) or its conjugate (and
   * the answer is dn - dm > -MAXPIN) for the distance dm of the first
   * landing.
   */
  lemma KangarooSound<T(!new)>(g: Group<T>, e: T, f: T)
    requires Lawful(g) && KangarooAnswer(g, e, f) != 0
    ensures var dn := Walk(g, g.one, Distances(), JumpTable(g, f), TRAP).1;
            TRAP <= dn <= TRAP * 512 &&
            exists dm: nat :: Lands(g, e, f, dm, dn, KangarooAnswer(g, e, f))
  {
    var distance, table := Distances(), JumpTable(g, f);
    var trap := Walk(g, g.one, distance, table, TRAP);
    WalkPosition(g, f, distance, table, g.one, TRAP);
    WildNonzeroIsLanding(g, e, trap.0, trap.1, distance, table, 0);
    var j :| 0 < j <= 4 * TRAP && IsFirstLanding(g, e, trap.0, trap.1, distance, table, 0, j);
    var q := Walk(g, e, distance, table, j);
    WalkPosition(g, f, distance, table, e, j);
    assert Lands(g, e, f, q.1, trap.1, KangarooAnswer(g, e, f));
  }

  /** e * f^dm lands on the trap f^dn or on its conjugate, with the answer res that kangaroo gives for it. */
  ghost predicate Lands<T(!new)>(g: Group<T>, e: T, f: T, dm: nat, dn: nat, res: int)
  {
    || (g.mul(e, Pow(g, f, dm)) == Pow(g, f, dn) && res == dm - dn && res < MAXPIN)
    || (g.mul(e, Pow(g, f, dm)) == g.conj(Pow(g, f, dn)) && res == dn - dm && res > -MAXPIN)
  }

  /**
   * A nonzero answer recovers the discrete logarithm up to the trap: if
   * E == f^k and kangaroo answers r != 0, then with dn the trap distance,
   * f^(k + dn + r) == f^dn when the wild kangaroo landed on t (r == dm - dn),
   * and f^(k + dn - r) == conj(f^dn) when it landed on conj(t) (r == dn - dm).
   */
  lemma TameMatchIsLog<T(!new)>(g: Group<T>, e: T, f: T, k: nat)
    requires Lawful(g) && e == Pow(g, f, k) && KangarooAnswer(g, e, f) != 0
    ensures LogOnTrap(g, f, k, Walk(g, g.one, Distances(), JumpTable(g, f), TRAP).1, KangarooAnswer(g, e, f))
  {
    var dn := Walk(g, g.one, Distances(), JumpTable(g, f), TRAP).1;
    var r := KangarooAnswer(g, e, f);
    KangarooSound(g, e, f);
    var dm: nat :| Lands(g, e, f, dm, dn, r);
    LandsLog(g, f, k, dm, dn, r);
  }

  /** f^(k + dn + r) is the trap f^dn, or f^(k + dn - r) is its conjugate. */
  ghost predicate LogOnTrap<T(!new)>(g: Group<T>, f: T, k: nat, dn: nat, r: int)
  {
    || (dn + r >= 0 && Pow(g, f, k + dn + r) == Pow(g, f, dn))
    || (dn - r >= 0 && Pow(g, f, k + dn - r) == g.conj(Pow(g, f, dn)))
  }

  /** A landing of f^k * f^dm with answer r puts f^(k + dm) on the trap, with dm == dn + r or dn - r. */
  lemma LandsLog<T(!new)>(g: Group<T>, f: T, k: nat, dm: nat, dn: nat, r: int)
    requires Lawful(g) && Lands(g, Pow(g, f, k), f, dm, dn, r)
    ensures LogOnTrap(g, f, k, dn, r)
  {
    PowAdd(g, f, k, dm);
    if r == dm - dn {
      assert k + dn + r == k + dm;
    } else {
      assert k + dn - r == k + dm;
    }
  }

  /** The integers under addition, with key 9 everywhere: every jump is by table[9]. */
  function IntGroup(): Group<int>
  {
    Group(0, (x: int, y: int) => x + y, (x: int) => 2 * x, (x: int) => -x, (x: int) => 9 as nat)
  }

  lemma IntLawful()
    ensures Lawful(IntGroup())
  {
  }

  /** In IntGroup, f^n is n * f; for f == 1 it is n. */
  lemma {:induction false} IntPow(f: int, n: nat)
    requires f == 1
    ensures Pow(IntGroup(), f, n) == n
  {
    if n > 0 {
      IntPow(f, n - 1);
    }
  }

  lemma IntTable(f: int)
    requires f == 1
    ensures Distances()[9] == 512 && JumpTable(IntGroup(), f)[9] == 512
  {
    assert Pow2(9) == 512;
    IntPow(f, Pow2(9));
  }

  /**
   * When every key selects jump 9, and that jump adds 512 to an integer
   * position and to the distance, k jumps move and travel 512 * k.
   */
  lemma {:induction false} ConstantJumpWalk(g: Group<int>, start: int, distance: seq<nat>, table: seq<int>, k: nat)
    requires |distance| == TS && |table| == TS && distance[9] == 512
    requires forall x :: g.key(x) % TS == 9
    requires forall x :: g.mul(x, table[9]) == x + 512
    ensures Walk(g, start, distance, table, k) == (start + 512 * k, 512 * k)
  {
    if k > 0 {
      ConstantJumpWalk(g, start, distance, table, k - 1);
      var p := Walk(g, start, distance, table, k - 1);
      assert g.key(p.0) % TS == 9;
    }
  }

  /**
   * The MAXPIN cut-off is one-sided: in a lawful group, E == f^101888 has
   * an offset ten times MAXPIN, yet kangaroo answers -101888 rather than 0,
   * because only dm - dn >= MAXPIN stops the wild kangaroo. The trap lies
   * at f^102400, 512 ahead of E, and the wild kangaroo lands on it after
   * one jump.
   */
  lemma KangarooBoundOneSided(e: int, f: int)
    requires e == 101888 && f == 1
    ensures Lawful(IntGroup()) && e == Pow(IntGroup(), f, e) && KangarooAnswer(IntGroup(), e, f) == -e
  {
    IntLawful();
    IntPow(f, e);
    var g, distance, table := IntGroup(), Distances(), JumpTable(IntGroup(), f);
    IntTable(f);
    ConstantJumpWalk(g, g.one, distance, table, TRAP);
    var trap := Walk(g, g.one, distance, table, TRAP);
    assert trap == (102400, 102400);
    ConstantJumpWalk(g, e, distance, table, 1);
    var q := Walk(g, e, distance, table, 1);
    assert q == (102400, 512);
    assert OnTrap(g, trap.0, q.0);
    assert WildFrom(g, e, trap.0, trap.1, distance, table, 0) == TrapAnswer(g, trap.0, trap.1, q.0, q.1);
  }

  // ---------------------------------------------------------------------
  // Hashing an identity to G1

  ghost predicate Accepts<G1(!new), G2(!new), GT(!new)>(c: Curve<G1, G2, GT>, x: int)
  {
    c.setX(x).Some?
  }

  /** x is the first candidate from start on that ECp.set accepts. */
  ghost predicate IsFirstAccepted<G1(!new), G2(!new), GT(!new)>(c: Curve<G1, G2, GT>, start: int, x: int)
  {
    start <= x && Accepts(c, x) && forall y :: start <= y < x ==> !Accepts(c, y)
  }

  /** Some candidate from start on is accepted, so ECp.set's search ends. */
  ghost predicate SomeAccepted<G1(!new), G2(!new), GT(!new)>(c: Curve<G1, G2, GT>, start: int)
  {
    exists x :: start <= x && Accepts(c, x)
  }

  lemma {:induction false} FirstAcceptedExists<G1(!new), G2(!new), GT(!new)>(c: Curve<G1, G2, GT>, start: int, x: int)
    requires start <= x && Accepts(c, x)
    ensures exists y :: IsFirstAccepted(c, start, y)
    decreases x - start
  {
    if !Accepts(c, start) {
      FirstAcceptedExists(c, start + 1, x);
      var y :| IsFirstAccepted(c, start + 1, y);
      assert IsFirstAccepted(c, start, y);
    } else {
      assert IsFirstAccepted(c, start, start);
    }
  }

  lemma FirstAcceptedUnique<G1(!new), G2(!new), GT(!new)>(c: Curve<G1, G2, GT>, start: int, x: int, y: int)
    requires IsFirstAccepted(c, start, x) && IsFirstAccepted(c, start, y)
    ensures x == y
  {
  }

  /** The point ECp.set builds from the first accepted candidate. */
  ghost function FirstPoint<G1(!new), G2(!new), GT(!new)>(c: Curve<G1, G2, GT>, start: int): G1
    requires SomeAccepted(c, start)
  {
    var k :| start <= k && Accepts(c, k);
    FirstAcceptedExists(c, start, k);
    var x :| IsFirstAccepted(c, start, x);
    c.setX(x).value
  }

  /**
   * (2^((bitlen(p) + 4) div 2) + p) div r. For the BN254 prime it is 1:
   * p has 254 bits and r <= 2^129 + p < 2r.
   */
  function Cofactor(p: nat): (cf: nat)
    ensures p == Fp.P ==> cf == 1
  {
    ModulusWidth();
    CofactorQuotient();
    (Pow2((BitLength(p) + 4) / 2) + p) / R
  }

  /**
   * The point is multiplied by the cofactor only when it is not 1, which
   * for BN254 it is: the point comes back unchanged.
   */
  function ClearCofactor<G1(!new), G2(!new), GT(!new)>(c: Curve<G1, G2, GT>, pt: G1): (r: G1)
    ensures r == pt
  {
    var cf := Cofactor(Fp.P);
    if cf != 1 then c.mulG1(cf, pt) else pt
  }

  /**
   * H(ID), with digest the integer value of the curve's designated hash of ID: the
   * candidate x starts at digest mod p and grows by one until ECp.set
   * accepts it. The loop ends only if some candidate is accepted, which is
   * what the precondition says.
   */
  method H<G1(!new), G2(!new), GT(!new)>(c: Curve<G1, G2, GT>, digest: nat) returns (pt: G1)
    requires SomeAccepted(c, digest % Fp.P)
    ensures pt == ClearCofactor(c, FirstPoint(c, digest % Fp.P))
  {
    var start := digest % Fp.P;
    ghost var k :| start <= k && Accepts(c, k);
    FirstAcceptedExists(c, start, k);
    ghost var first :| IsFirstAccepted(c, start, first);
    var x := start;
    while c.setX(x).None?
      invariant start <= x <= first
      invariant forall y :: start <= y < x ==> !Accepts(c, y)
      decreases first - x
    {
      x := x + 1;
    }
    FirstAcceptedUnique(c, start, x, first);
    pt := c.setX(x).value;
    ghost var fp := FirstPoint(c, start);
    assert fp == pt by {
      var x' :| IsFirstAccepted(c, start, x') && c.setX(x').value == fp;
      FirstAcceptedUnique(c, start, x, x');
    }
    var cf := Cofactor(Fp.P);
    if cf != 1 {
      pt := c.mulG1(cf, pt);
    }
  }

  lemma {:induction false} BitLengthOf(x: nat, n: nat)
    requires n >= 1 && Pow2(n - 1) <= x < Pow2(n)
    ensures BitLength(x) == n
    decreases n
  {
    if n > 1 {
      BitLengthOf(x / 2, n - 1);
    }
  }

  lemma {:induction false} Pow2Add(m: nat, n: nat)
    ensures Pow2(m + n) == Pow2(m) * Pow2(n)
    decreases m
  {
    if m > 0 {
      Pow2Add(m - 1, n);
    }
  }

  lemma Pow2Small()
    ensures Pow2(8) == 0x100 && Pow2(9) == 512 && Pow2(13) == 0x2000
  {
    assert Pow2(8) == 0x100;
    assert Pow2(9) == 512;
    assert Pow2(13) == 0x2000;
  }

  lemma Pow2Of16()
    ensures Pow2(16) == 0x1_0000
  {
    Pow2Small();
    Pow2Add(8, 8);
  }

  lemma Pow2Of32()
    ensures Pow2(29) == 0x2000_0000 && Pow2(32) == 0x1_0000_0000
  {
    Pow2Small();
    Pow2Of16();
    Pow2Add(16, 13);
    Pow2Add(16, 16);
  }

  lemma Pow2Of64()
    ensures Pow2(61) == 0x2000_0000_0000_0000 && Pow2(64) == 0x1_0000_0000_0000_0000
  {
    Pow2Of32();
    Pow2Add(32, 29);
    Pow2Add(32, 32);
  }

  lemma Pow2Of128()
    ensures Pow2(125) == 0x2000_0000_0000_0000_0000_0000_0000_0000
    ensures Pow2(128) == 0x1_0000_0000_0000_0000_0000_0000_0000_0000
  {
    Pow2Of64();
    Pow2Add(64, 61);
    Pow2Add(64, 64);
  }

  lemma Pow2Of253()
    ensures Pow2(129) == 0x2_0000_0000_0000_0000_0000_0000_0000_0000
    ensures Pow2(253) == 0x2000_0000_0000_0000_0000_0000_0000_0000_0000_0000_0000_0000_0000_0000_0000_0000
    ensures Pow2(254) == 0x4000_0000_0000_0000_0000_0000_0000_0000_0000_0000_0000_0000_0000_0000_0000_0000
  {
    Pow2Of128();
    Pow2Add(128, 1);
    Pow2Add(128, 125);
    Pow2Add(253, 1);
    assert Pow2(1) == 2;
  }

  /** p is a 254-bit number. */
  lemma ModulusWidth()
    ensures BitLength(Fp.P) == 254
  {
    Pow2Of253();
    BitLengthOf(Fp.P, 254);
  }

  /** r <= 2^129 + p < 2r */
  lemma CofactorQuotient()
    ensures (Pow2(129) + Fp.P) / R == 1
  {
    Pow2Of253();
    QuotientOne(Pow2(129) + Fp.P, R);
  }

  lemma QuotientOne(v: nat, d: nat)
    requires 0 < d <= v < 2 * d
    ensures v / d == 1
  {
  }

  // ---------------------------------------------------------------------
  // Client and server

  /**
   * The client_2 blinding scalar r - ((x + y) mod r): it lies in [1, r]
   * and completes x + y to a multiple of r.
   */
  function BlindingScalar(x: nat, y: nat): (s: nat)
    ensures 1 <= s <= R
    ensures (x + y + s) % R == 0
  {
    var m := (x + y) % R;
    assert x + y == (x + y) / R * R + m;
    assert x + y + (R - m) == ((x + y) / R + 1) * R;
    R - m
  }

  /**
   * What extract_pin returns for the hashed identity hp: the token
   * SK - PIN*H(ID), or the empty byte string when SK does not decode.
   * This is the specification the method ExtractPin is proved against.
   */
  function TokenOf<G1(!new), G2(!new), GT(!new)>(c: Curve<G1, G2, GT>, hp: G1, pin: int, sk: seq<byte>): (tk: seq<byte>)
    ensures c.decodeG1(sk).None? ==> tk == []
    ensures c.decodeG1(sk).Some? ==>
              tk == c.encodeG1(c.addG1(c.decodeG1(sk).value, c.negG1(c.mulG1(pin, hp))))
  {
    match c.decodeG1(sk)
    case None => []
    case Some(s) => c.encodeG1(c.addG1(s, c.negG1(c.mulG1(pin, hp))))
  }

  /**
   * What client_2 returns for the hashed identity hp: V = r_blind * (TK +
   * PIN*H(ID)), or the empty byte string when TK does not decode.
   * This is the specification the method Client2 is proved against.
   */
  function ClientProofOf<G1(!new), G2(!new), GT(!new)>(c: Curve<G1, G2, GT>, hp: G1, x: nat, y: nat, pin: int, tk: seq<byte>): (v: seq<byte>)
    ensures c.decodeG1(tk).None? ==> v == []
    ensures c.decodeG1(tk).Some? ==>
              v == c.encodeG1(c.mulG1(BlindingScalar(x, y), c.addG1(c.decodeG1(tk).value, c.mulG1(pin, hp))))
  {
    match c.decodeG1(tk)
    case None => []
    case Some(s) => c.encodeG1(c.mulG1(BlindingScalar(x, y), c.addG1(s, c.mulG1(pin, hp))))
  }

  /** extract_pin(ID, PIN, SK), with digest the hash of ID. */
  method ExtractPin<G1(!new), G2(!new), GT(!new)>(c: Curve<G1, G2, GT>, digest: nat, pin: int, sk: seq<byte>) returns (tk: seq<byte>)
    requires SomeAccepted(c, digest % Fp.P)
    ensures tk == TokenOf(c, ClearCofactor(c, FirstPoint(c, digest % Fp.P)), pin, sk)
  {
    var p := H(c, digest);
    p := c.negG1(c.mulG1(pin, p));
    var s := c.decodeG1(sk);
    if s.None? {
      return [];
    }
    tk := c.encodeG1(c.addG1(s.value, p));
  }

  /** client_2(X, Y, ID, PIN, TK), with x, y the integers of X, Y and digest the hash of ID. */
  method Client2<G1(!new), G2(!new), GT(!new)>(c: Curve<G1, G2, GT>, x: nat, y: nat, digest: nat, pin: int, tk: seq<byte>)
    returns (v: seq<byte>)
    requires SomeAccepted(c, digest % Fp.P)
    ensures v == ClientProofOf(c, ClearCofactor(c, FirstPoint(c, digest % Fp.P)), x, y, pin, tk)
  {
    var p := H(c, digest);
    var s := c.decodeG1(tk);
    if s.None? {
      return [];
    }
    var z: int := (x + y) % R;
    z := R - z;
    assert z == BlindingScalar(x, y);
    var sum := c.addG1(s.value, c.mulG1(pin, p));
    v := c.encodeG1(c.mulG1(z, sum));
  }

  /** The laws of G1 the token round trip needs. */
  ghost predicate G1Laws<G1(!new), G2(!new), GT(!new)>(c: Curve<G1, G2, GT>)
  {
    && (forall pt :: c.decodeG1(c.encodeG1(pt)) == Some(pt))
    && (forall p, q, s :: c.addG1(c.addG1(p, q), s) == c.addG1(p, c.addG1(q, s)))
    && (forall p :: c.addG1(c.negG1(p), p) == c.infinity)
    && (forall p :: c.addG1(p, c.infinity) == p)
  }

  /**
   * client_2 with the right PIN undoes extract_pin: from the token of the
   * client secret S it computes r_blind * S.
   */
  lemma TokenRoundTrip<G1(!new), G2(!new), GT(!new)>(c: Curve<G1, G2, GT>, hp: G1, x: nat, y: nat, pin: int, s: G1)
    requires G1Laws(c)
    ensures ClientProofOf(c, hp, x, y, pin, TokenOf(c, hp, pin, c.encodeG1(s)))
         == c.encodeG1(c.mulG1(BlindingScalar(x, y), s))
  {
    var m := c.mulG1(pin, hp);
    var t := c.addG1(s, c.negG1(m));
    assert TokenOf(c, hp, pin, c.encodeG1(s)) == c.encodeG1(t);
    assert c.decodeG1(c.encodeG1(t)) == Some(t);
    calc {
      c.addG1(t, m);
      c.addG1(s, c.addG1(c.negG1(m), m));
      c.addG1(s, c.infinity);
      s;
    }
  }

  /** What server returns besides the verdict: bytes, or a fresh Fp12 value. */
  datatype Payload<GT> = Bytes(bytes: seq<byte>) | Element(element: GT)

  datatype Verdict<GT> = Verdict(ok: bool, e: Payload<GT>, f: Payload<GT>)

  /**
   * What server returns for the hashed identity hp and the integer y of Y.
   * This is the specification the method Server is proved against.
   */
  function ServerVerdictOf<G1(!new), G2(!new), GT(!new)>(c: Curve<G1, G2, GT>, hp: G1, y: nat, ss: seq<byte>, u: seq<byte>, v: seq<byte>)
    : (r: Verdict<GT>)
    ensures c.decodeG2(ss).None? ==> r == Verdict(false, Element(c.emptyGT), Element(c.emptyGT))
    ensures c.decodeG2(ss).Some? && (c.decodeG1(u).None? || c.decodeG1(v).None?) ==>
              r == Verdict(false, Bytes([]), Bytes([]))
    ensures r.ok <==>
              c.decodeG2(ss).Some? && c.decodeG1(u).Some? && c.decodeG1(v).Some? &&
              c.isOne(c.fexp(c.doubleAte(c.generatorG2, c.decodeG1(v).value, c.decodeG2(ss).value,
                                         c.addG1(c.decodeG1(u).value, c.mulG1(y, hp)))))
    ensures r.ok ==> r.e == Bytes([]) && r.f == Bytes([])
    ensures !r.ok && c.decodeG2(ss).Some? && c.decodeG1(u).Some? && c.decodeG1(v).Some? ==>
              var tu := c.addG1(c.decodeG1(u).value, c.mulG1(y, hp));
              r.e == Bytes(c.encodeGT(c.fexp(c.doubleAte(c.generatorG2, c.decodeG1(v).value, c.decodeG2(ss).value, tu))))
              && r.f == Bytes(c.encodeGT(c.pairing(c.generatorG2, tu)))
  {
    var q := c.generatorG2;
    var p := c.mulG1(y, hp);
    match c.decodeG2(ss)
    case None => Verdict(false, Element(c.emptyGT), Element(c.emptyGT))
    case Some(sq) =>
      match c.decodeG1(u)
      case None => Verdict(false, Bytes([]), Bytes([]))
      case Some(tu0) =>
        match c.decodeG1(v)
        case None => Verdict(false, Bytes([]), Bytes([]))
        case Some(tv) =>
          var tu := c.addG1(tu0, p);
          var g := c.fexp(c.doubleAte(q, tv, sq, tu));
          if c.isOne(g) then Verdict(true, Bytes([]), Bytes([]))
          else Verdict(false, Bytes(c.encodeGT(g)), Bytes(c.encodeGT(c.pairing(q, tu))))
  }

  /** server(ID, Y, SS, U, V), with y the integer of Y and digest the hash of ID. */
  method Server<G1(!new), G2(!new), GT(!new)>(c: Curve<G1, G2, GT>, digest: nat, y: nat, ss: seq<byte>, u: seq<byte>, v: seq<byte>)
    returns (r: Verdict<GT>)
    requires SomeAccepted(c, digest % Fp.P)
    ensures r == ServerVerdictOf(c, ClearCofactor(c, FirstPoint(c, digest % Fp.P)), y, ss, u, v)
  {
    var p := H(c, digest);
    var q := c.generatorG2;
    p := c.mulG1(y, p);
    var sq := c.decodeG2(ss);
    if sq.None? {
      return Verdict(false, Element(c.emptyGT), Element(c.emptyGT));
    }
    var tu := c.decodeG1(u);
    if tu.None? {
      return Verdict(false, Bytes([]), Bytes([]));
    }
    var tv := c.decodeG1(v);
    if tv.None? {
      return Verdict(false, Bytes([]), Bytes([]));
    }
    var tu' := c.addG1(tu.value, p);
    var g := c.doubleAte(q, tv.value, sq.value, tu');
    g := c.fexp(g);
    if c.isOne(g) {
      return Verdict(true, Bytes([]), Bytes([]));
    }
    var e := c.encodeGT(g);
    g := c.pairing(q, tu');
    var f := c.encodeGT(g);
    r := Verdict(false, Bytes(e), Bytes(f));
  }

  // ---------------------------------------------------------------------
  // Adding encoded points

  /** add_G1(A, B): None if either operand fails to decode. */
  function AddG1<G1(!new), G2(!new), GT(!new)>(c: Curve<G1, G2, GT>, a: seq<byte>, b: seq<byte>): (r: Option<seq<byte>>)
    ensures r.None? <==> c.decodeG1(a).None? || c.decodeG1(b).None?
    ensures r.Some? ==> r.value == c.encodeG1(c.addG1(c.decodeG1(a).value, c.decodeG1(b).value))
  {
    match c.decodeG1(a)
    case None => None
    case Some(a1) =>
      match c.decodeG1(b)
      case None => None
      case Some(b1) => Some(c.encodeG1(c.addG1(a1, b1)))
  }

  /** add_G2(A, B): None if either operand fails to decode. */
  function AddG2<G1(!new), G2(!new), GT(!new)>(c: Curve<G1, G2, GT>, a: seq<byte>, b: seq<byte>): (r: Option<seq<byte>>)
    ensures r.None? <==> c.decodeG2(a).None? || c.decodeG2(b).None?
    ensures r.Some? ==> r.value == c.encodeG2(c.addG2(c.decodeG2(a).value, c.decodeG2(b).value))
  {
    match c.decodeG2(a)
    case None => None
    case Some(a1) =>
      match c.decodeG2(b)
      case None => None
      case Some(b1) => Some(c.encodeG2(c.addG2(a1, b1)))
  }

  /** On encoded points, add_G1 is point addition followed by encoding. */
  lemma AddG1Encoded<G1(!new), G2(!new), GT(!new)>(c: Curve<G1, G2, GT>, p: G1, q: G1)
    requires forall pt :: c.decodeG1(c.encodeG1(pt)) == Some(pt)
    ensures AddG1(c, c.encodeG1(p), c.encodeG1(q)) == Some(c.encodeG1(c.addG1(p, q)))
  {
    assert c.decodeG1(c.encodeG1(p)) == Some(p);
    assert c.decodeG1(c.encodeG1(q)) == Some(q);
  }

  /** On encoded points, add_G2 is point addition followed by encoding. */
  lemma AddG2Encoded<G1(!new), G2(!new), GT(!new)>(c: Curve<G1, G2, GT>, p: G2, q: G2)
    requires forall pt :: c.decodeG2(c.encodeG2(pt)) == Some(pt)
    ensures AddG2(c, c.encodeG2(p), c.encodeG2(q)) == Some(c.encodeG2(c.addG2(p, q)))
  {
    assert c.decodeG2(c.encodeG2(p)) == Some(p);
    assert c.decodeG2(c.encodeG2(q)) == Some(q);
  }
}
