/**
 * A sequential CSMA/CD bus: a row of cells shared by transmitters. In
 * each cycle a transmitter either waits out its start delay or backoff, or
 * marks its own position and the cells within its current reach, turning
 * every cell that already carries someone else's signal into a collision
 * marker. A collision-free step widens the reach by one cell on each side,
 * up to the transmitter's signal lengths.
 *
 * A cell is '0', a station's coloured name, or the red 'X'; the colours
 * and names become cell identities here. The random draws of
 * `random.randint` are inputs.
 */
module Csma {
  import opened Powers

  /** One position of the bus: '0', a station's mark, or the collision marker 'X'. */
  datatype Cell = Idle | Mark(station: string) | Jam

  /** A cell that blocks a transmitter whose mark is own: neither idle nor its own mark. */
  predicate Foreign(c: Cell, own: Cell) {
    c != Idle && c != own
  }

  /** The largest backoff exponent: `min(collision_count, 10)`. */
  const BackoffLimit: nat := 10

  function Max(a: int, b: int): int { if a < b then b else a }
  function Min(a: int, b: int): int { if a < b then a else b }

  /** Some cell in [lo, hi) carries a foreign signal. */
  ghost predicate Collides(cells: seq<Cell>, own: Cell, lo: int, hi: int)
    requires 0 <= lo && hi <= |cells|
  {
    exists x | lo <= x < hi :: Foreign(cells[x], own)
  }

  lemma CollidesStep(cells: seq<Cell>, own: Cell, lo: int, i: int)
    requires 0 <= lo <= i < |cells|
    ensures Collides(cells, own, lo, i + 1) <==> Collides(cells, own, lo, i) || Foreign(cells[i], own)
  {
    if Collides(cells, own, lo, i + 1) && !Foreign(cells[i], own) {
      var x :| lo <= x < i + 1 && Foreign(cells[x], own);
      assert x < i;
    }
  }

  /** What one transmission step leaves on the bus: the own mark at pos, and
    * every other cell of [lo, hi) its own mark, or X where it carried a
    * foreign signal; cells out of reach are untouched. */
  function Sweep(cells: seq<Cell>, own: Cell, pos: int, lo: int, hi: int): (r: seq<Cell>)
    requires 0 <= lo <= pos < hi <= |cells|
    ensures |r| == |cells| && r[pos] == own
    ensures forall x | 0 <= x < |cells| && (x < lo || hi <= x) :: r[x] == cells[x]
    ensures forall x | lo <= x < hi && x != pos :: r[x] == if Foreign(cells[x], own) then Jam else own
  {
    seq(|cells|, x requires 0 <= x < |cells| =>
      if x == pos then own
      else if lo <= x < hi then (if Foreign(cells[x], own) then Jam else own)
      else cells[x])
  }

  /** A step collides exactly when it writes an X: for a station's mark,
    * a foreign cell in reach before the step is the same as an X in reach after it. */
  lemma SweepCollision(cells: seq<Cell>, own: Cell, pos: int, lo: int, hi: int)
    requires 0 <= lo <= pos < hi <= |cells| && own.Mark?
    ensures var r := Sweep(cells, own, pos, lo, hi);
      (Collides(cells, own, lo, pos) || Collides(cells, own, pos + 1, hi)) <==>
      exists x | lo <= x < hi :: r[x] == Jam
  {
    var r := Sweep(cells, own, pos, lo, hi);
    if exists x | lo <= x < hi :: r[x] == Jam {
      var x :| lo <= x < hi && r[x] == Jam;
      assert x != pos && Foreign(cells[x], own);
      if x < pos {
        assert Collides(cells, own, lo, pos);
      } else {
        assert Collides(cells, own, pos + 1, hi);
      }
    }
    if Collides(cells, own, lo, pos) {
      var x :| lo <= x < pos && Foreign(cells[x], own);
      assert r[x] == Jam;
    }
    if Collides(cells, own, pos + 1, hi) {
      var x :| pos + 1 <= x < hi && Foreign(cells[x], own);
      assert r[x] == Jam;
    }
  }

  /** Repeating a step with the same reach changes nothing more: the first
    * leaves only the own mark and X within reach. */
  lemma SweepIdempotent(cells: seq<Cell>, own: Cell, pos: int, lo: int, hi: int)
    requires 0 <= lo <= pos < hi <= |cells| && own.Mark?
    ensures var r := Sweep(cells, own, pos, lo, hi);
      Sweep(r, own, pos, lo, hi) == r
  {
    var r := Sweep(cells, own, pos, lo, hi);
    var s := Sweep(r, own, pos, lo, hi);
    forall x | 0 <= x < |cells| ensures s[x] == r[x] {
      if lo <= x < hi && x != pos {
        assert r[x] == Jam || r[x] == own;
      }
    }
  }

  /** `clear_network`: every X stays, every other cell becomes '0'. */
  function Cleared(cells: seq<Cell>): (r: seq<Cell>)
    ensures |r| == |cells|
    ensures forall x | 0 <= x < |cells| :: r[x] == Jam <==> cells[x] == Jam
    ensures forall x | 0 <= x < |cells| :: r[x] == Idle || r[x] == Jam
  {
    seq(|cells|, x requires 0 <= x < |cells| => if cells[x] == Jam then Jam else Idle)
  }

  /** Clearing twice is clearing once. */
  lemma ClearedIdempotent(cells: seq<Cell>)
    ensures Cleared(Cleared(cells)) == Cleared(cells)
  {
    var r := Cleared(cells);
    forall x | 0 <= x < |cells| ensures Cleared(r)[x] == r[x] {
      assert r[x] == Idle || r[x] == Jam;
    }
  }

  /** A collision-free step leaves no trace once the bus is cleared: it only
    * writes the own mark over '0' and over the own mark. */
  lemma ClearAfterCleanSweep(cells: seq<Cell>, own: Cell, pos: int, lo: int, hi: int)
    requires 0 <= lo <= pos < hi <= |cells| && own.Mark?
    requires cells[pos] == Idle || cells[pos] == own
    requires !Collides(cells, own, lo, pos) && !Collides(cells, own, pos + 1, hi)
    ensures Cleared(Sweep(cells, own, pos, lo, hi)) == Cleared(cells)
  {
    var r := Sweep(cells, own, pos, lo, hi);
    forall x | 0 <= x < |cells| ensures Cleared(r)[x] == Cleared(cells)[x] {
      if lo <= x < pos {
        assert !Foreign(cells[x], own);
      } else if pos < x < hi {
        assert !Foreign(cells[x], own);
      }
    }
  }

  class Transmitter {
    const name: string
    /** The transmitter's fixed cell on the bus. */
    const position: int
    const color: string
    /** `signal_length_left`, `signal_length_right`: the largest reach. */
    const signalLeft: int
    const signalRight: int
    /** `current_length_left`, `current_length_right`: the present reach. */
    var currentLeft: int
    var currentRight: int
    var startDelay: int
    var backoffTime: int
    var collisionCount: int
    var transmitting: bool

    /** The cell content `color + name`. */
    function Own(): (c: Cell)
      ensures c.Mark? && Foreign(Jam, c)
    {
      Mark(color + name)
    }

    /** The reach stays between 0 and the signal length (0 when that is negative),
      * and the counters are never negative. */
    ghost predicate Valid()
      reads this
    {
      0 <= currentLeft <= Max(signalLeft, 0) && 0 <= currentRight <= Max(signalRight, 0) &&
      startDelay >= 0 && backoffTime >= 0 && collisionCount >= 0
    }

    /** `start_delay` is the draw of `random.randint(0, 10)`. */
    constructor (name: string, position: int, color: string, signalLeft: int, signalRight: int, startDelay: int)
      requires 0 <= startDelay <= 10
      ensures Valid()
      ensures this.name == name && this.position == position && this.color == color
      ensures this.signalLeft == signalLeft && this.signalRight == signalRight
      ensures currentLeft == 0 && currentRight == 0 && this.startDelay == startDelay
      ensures backoffTime == 0 && collisionCount == 0 && !transmitting
    {
      this.name := name;
      this.position := position;
      this.color := color;
      this.signalLeft := signalLeft;
      this.signalRight := signalRight;
      currentLeft := 0;
      currentRight := 0;
      this.startDelay := startDelay;
      backoffTime := 0;
      collisionCount := 0;
      transmitting := false;
    }

    /** `propagate(network)`: one cycle of this transmitter. */
    method Propagate(network: Network) returns (collision: bool)
      requires Valid() && 0 <= position < |network.cells|
      modifies this, network
      ensures Valid()
      ensures network.collisionOccurred == old(network.collisionOccurred)
      ensures collisionCount == old(collisionCount)
      // waiting: only the running counter moves
      ensures old(startDelay) > 0 ==>
        !collision && network.cells == old(network.cells) &&
        startDelay == old(startDelay) - 1 && backoffTime == old(backoffTime) &&
        currentLeft == old(currentLeft) && currentRight == old(currentRight) && transmitting == old(transmitting)
      ensures old(startDelay) <= 0 && old(backoffTime) > 0 ==>
        !collision && network.cells == old(network.cells) &&
        startDelay == old(startDelay) && backoffTime == old(backoffTime) - 1 &&
        currentLeft == old(currentLeft) && currentRight == old(currentRight) && transmitting == old(transmitting)
      // sending: the reach is swept, and grows only without a collision
      ensures old(startDelay) <= 0 && old(backoffTime) <= 0 ==>
        var lo := Max(position - old(currentLeft), 0);
        var hi := Min(position + old(currentRight) + 1, |old(network.cells)|);
        network.cells == Sweep(old(network.cells), Own(), position, lo, hi) &&
        (collision <==> Collides(old(network.cells), Own(), lo, position) ||
                        Collides(old(network.cells), Own(), position + 1, hi)) &&
        startDelay == old(startDelay) && backoffTime == old(backoffTime) &&
        (collision ==>
          currentLeft == old(currentLeft) && currentRight == old(currentRight) && transmitting == old(transmitting)) &&
        (!collision ==>
          currentLeft == old(currentLeft) + (if old(currentLeft) < signalLeft then 1 else 0) &&
          currentRight == old(currentRight) + (if old(currentRight) < signalRight then 1 else 0) &&
          transmitting)
    {
      if startDelay > 0 {
        startDelay := startDelay - 1;
        return false;
      }
      if backoffTime > 0 {
        backoffTime := backoffTime - 1;
        return false;
      }
      var own := Own();
      var cells := network.cells;
      var startLeft := Max(position - currentLeft, 0);
      var endRight := Min(position + currentRight + 1, |cells|);
      var updates;
      updates, collision := CollectUpdates(cells, own, position, startLeft, endRight);
      ghost var swept := Sweep(cells, own, position, startLeft, endRight);
      ApplyUpdates(network, updates, cells, swept, startLeft, endRight, position);
      if collision {
        return true;
      }
      if currentLeft < signalLeft {
        currentLeft := currentLeft + 1;
      }
      if currentRight < signalRight {
        currentRight := currentRight + 1;
      }
      transmitting := true;
    }

    /** The two scans of `propagate` over the pre-step bus: the own mark at
      * pos first, then one (index, value) pair for each cell of [lo, pos) and
      * of [pos + 1, hi), in order, with the value the step writes there. */
    static method CollectUpdates(cells: seq<Cell>, own: Cell, position: int, startLeft: int, endRight: int)
      returns (updates: seq<(int, Cell)>, collision: bool)
      requires 0 <= startLeft <= position < endRight <= |cells|
      ensures |updates| == 1 + (position - startLeft) + (endRight - position - 1) && updates[0].0 == position
      ensures forall e | 1 <= e <= position - startLeft :: updates[e].0 == startLeft + e - 1
      ensures forall e | 1 + position - startLeft <= e < |updates| ::
        updates[e].0 == position + 1 + e - 1 - (position - startLeft)
      ensures forall e | 0 <= e < |updates| ::
        0 <= updates[e].0 < |cells| && updates[e].1 == Sweep(cells, own, position, startLeft, endRight)[updates[e].0]
      ensures collision <==> Collides(cells, own, startLeft, position) || Collides(cells, own, position + 1, endRight)
    {
      ghost var swept := Sweep(cells, own, position, startLeft, endRight);
      var endLeft := position;
      var startRight := position + 1;
      collision := false;
      updates := [];
      updates := updates + [(position, own)];
      for i := startLeft to endLeft
        invariant |updates| == 1 + i - startLeft && updates[0] == (position, own)
        invariant forall e | 1 <= e < |updates| :: updates[e].0 == startLeft + e - 1
        invariant forall e | 0 <= e < |updates| :: 0 <= updates[e].0 < |cells| && updates[e].1 == swept[updates[e].0]
        invariant collision <==> Collides(cells, own, startLeft, i)
      {
        CollidesStep(cells, own, startLeft, i);
        if cells[i] != Idle && cells[i] != own {
          updates := updates + [(i, Jam)];
          collision := true;
        } else {
          updates := updates + [(i, own)];
        }
      }
      ghost var leftCollision := collision;
      for i := startRight to endRight
        invariant |updates| == 1 + (endLeft - startLeft) + (i - startRight) && updates[0] == (position, own)
        invariant forall e | 1 <= e <= endLeft - startLeft :: updates[e].0 == startLeft + e - 1
        invariant forall e | 1 + endLeft - startLeft <= e < |updates| :: updates[e].0 == startRight + e - 1 - (endLeft - startLeft)
        invariant forall e | 0 <= e < |updates| :: 0 <= updates[e].0 < |cells| && updates[e].1 == swept[updates[e].0]
        invariant collision <==> leftCollision || Collides(cells, own, startRight, i)
      {
        CollidesStep(cells, own, startRight, i);
        if cells[i] != Idle && cells[i] != own {
          updates := updates + [(i, Jam)];
          collision := true;
        } else {
          updates := updates + [(i, own)];
        }
      }
    }

    /** The last loop of `propagate`: the collected (index, value) pairs written
      * into the bus. The pairs cover [lo, hi) and agree with swept, so the bus
      * becomes swept. */
    static method ApplyUpdates(network: Network, updates: seq<(int, Cell)>, ghost cells: seq<Cell>,
                               ghost swept: seq<Cell>, ghost lo: int, ghost hi: int, ghost pos: int)
      requires network.cells == cells && |swept| == |cells| && 0 <= lo <= pos < hi <= |cells|
      requires forall x | 0 <= x < |cells| && (x < lo || hi <= x) :: swept[x] == cells[x]
      requires |updates| == 1 + (pos - lo) + (hi - pos - 1) && updates[0].0 == pos
      requires forall e | 1 <= e <= pos - lo :: updates[e].0 == lo + e - 1
      requires forall e | 1 + pos - lo <= e < |updates| :: updates[e].0 == pos + 1 + e - 1 - (pos - lo)
      requires forall e | 0 <= e < |updates| :: 0 <= updates[e].0 < |cells| && updates[e].1 == swept[updates[e].0]
      modifies network
      ensures network.cells == swept && network.collisionOccurred == old(network.collisionOccurred)
    {
      for k := 0 to |updates|
        invariant |network.cells| == |cells| && network.collisionOccurred == old(network.collisionOccurred)
        invariant forall x | 0 <= x < |cells| ::
          network.cells[x] == if exists e | 0 <= e < k :: updates[e].0 == x then swept[x] else cells[x]
      {
        var (index, value) := updates[k];
        network.cells := network.cells[index := value];
      }
      forall x | 0 <= x < |cells| ensures network.cells[x] == swept[x] {
        if x == pos {
          assert updates[0].0 == x;
        } else if lo <= x < pos {
          assert updates[x - lo + 1].0 == x;
        } else if pos < x < hi {
          assert updates[x - lo].0 == x;
        }
      }
    }

    /** `handle_collision()`: backoff is the draw of
      * `random.randint(1, 2 ** min(collision_count, 10))` for the raised count. */
    method HandleCollision(backoff: int)
      requires Valid() && 1 <= backoff <= Pow2(Min(collisionCount + 1, BackoffLimit))
      modifies this
      ensures Valid()
      ensures !transmitting && collisionCount == old(collisionCount) + 1
      ensures 1 <= backoffTime <= Pow2(Min(collisionCount, BackoffLimit)) && backoffTime == backoff
      ensures currentLeft == 0 && currentRight == 0 && startDelay == old(startDelay)
    {
      transmitting := false;
      collisionCount := collisionCount + 1;
      backoffTime := backoff;
      currentLeft := 0;
      currentRight := 0;
    }

    /** `reset()`: the next attempt starts after the last backoff. */
    method Reset()
      requires Valid()
      modifies this
      ensures Valid()
      ensures currentLeft == 0 && currentRight == 0 && startDelay == old(backoffTime) && !transmitting
      ensures backoffTime == old(backoffTime) && collisionCount == old(collisionCount)
    {
      currentLeft := 0;
      currentRight := 0;
      startDelay := backoffTime;
      transmitting := false;
    }
  }

  /** The backoff window doubles with each collision until the tenth, then stays at 1024 slots. */
  lemma BackoffWindow(count: nat)
    ensures count < BackoffLimit ==> Pow2(Min(count + 1, BackoffLimit)) == 2 * Pow2(Min(count, BackoffLimit))
    ensures count >= BackoffLimit ==> Pow2(Min(count, BackoffLimit)) == 1024
  {
    if count >= BackoffLimit {
      assert Pow2(10) == 1024 by {
        assert Pow2(5) == 32;
      }
    }
  }

  class Network {
    /** `network`: the bus cells. */
    var cells: seq<Cell>
    const transmitters: seq<Transmitter>
    var collisionOccurred: bool

    constructor (length: nat, transmitters: seq<Transmitter>)
      ensures cells == seq(length, _ => Idle) && this.transmitters == transmitters && !collisionOccurred
    {
      cells := seq(length, _ => Idle);
      this.transmitters := transmitters;
      collisionOccurred := false;
    }

    /** `spread_collision()`: the whole bus becomes X. */
    method SpreadCollision()
      modifies this
      ensures cells == seq(|old(cells)|, _ => Jam) && collisionOccurred == old(collisionOccurred)
    {
      for i := 0 to |cells|
        invariant |cells| == |old(cells)| && collisionOccurred == old(collisionOccurred)
        invariant forall x | 0 <= x < i :: cells[x] == Jam
      {
        cells := cells[i := Jam];
      }
    }

    /** `clear_network()`: signals vanish, collision markers stay. */
    method ClearNetwork()
      modifies this
      ensures cells == Cleared(old(cells)) && collisionOccurred == old(collisionOccurred)
    {
      for i := 0 to |cells|
        invariant |cells| == |old(cells)| && collisionOccurred == old(collisionOccurred)
        invariant forall x | 0 <= x < |cells| :: cells[x] == if x < i then Cleared(old(cells))[x] else old(cells)[x]
      {
        if cells[i] != Jam {
          cells := cells[i := Idle];
        }
      }
    }

    /** `reset_network()`: an idle bus of the same length, no collision
      * recorded, and every transmitter reset. */
    method ResetNetwork()
      requires forall t | t in transmitters :: t.Valid()
      modifies this, set t | t in transmitters
      ensures cells == seq(|old(cells)|, _ => Idle) && !collisionOccurred
      ensures forall t | t in transmitters ::
        t.Valid() && t.currentLeft == 0 && t.currentRight == 0 && t.startDelay == old(t.backoffTime) &&
        !t.transmitting && t.backoffTime == old(t.backoffTime) && t.collisionCount == old(t.collisionCount)
    {
      cells := seq(|cells|, _ => Idle);
      collisionOccurred := false;
      for k := 0 to |transmitters|
        invariant cells == seq(|old(cells)|, _ => Idle) && !collisionOccurred
        invariant forall t | t in transmitters ::
          (t.Valid() && t.backoffTime == old(t.backoffTime) && t.collisionCount == old(t.collisionCount))
        invariant forall t | t in transmitters[..k] ::
          t.currentLeft == 0 && t.currentRight == 0 && t.startDelay == old(t.backoffTime) && !t.transmitting
        invariant forall t | t in transmitters && t !in transmitters[..k] ::
          t.currentLeft == old(t.currentLeft) && t.currentRight == old(t.currentRight) &&
          t.startDelay == old(t.startDelay) && t.transmitting == old(t.transmitting)
      {
        assert transmitters[..k + 1] == transmitters[..k] + [transmitters[k]];
        transmitters[k].Reset();
      }
      assert transmitters[..|transmitters|] == transmitters;
    }
  }
}
