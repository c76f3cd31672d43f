/**
 * The client's work schedule: the rows of tiles it walks through and, within a
 * row, the cycles in which it hands one block to each of its servers, cutting
 * the server count down for the last cycle of a row.
 */
module Schedule {
  import opened Arith

  /**
   * isLastCycle(col, NUM_X, DIM, nr_servers): whether the cycle starting at
   * col is the one that should use only NUM_X % nr_servers servers. With no
   * server the remainder would raise ZeroDivisionError.
   *
   * With one-column tiles it is true exactly when a full cycle would run past
   * the image; when the image width is a multiple of a full cycle it is never
   * true.
   */
  function IsLastCycle(col: int, numX: int, dim: int, nrServers: int): (r: bool)
    requires nrServers >= 1
    ensures dim == 1 && 0 <= col < numX && col % nrServers == 0 ==>
      (r <==> col + nrServers > numX)
    ensures dim >= 1 && 0 <= col < numX && numX % (dim * nrServers) == 0 ==> !r
  {
    var leftOvers := numX % nrServers;
    assert dim == 1 && 0 <= col < numX && col % nrServers == 0 ==>
      (col == numX - leftOvers <==> col + nrServers > numX) by {
      if dim == 1 && 0 <= col < numX && col % nrServers == 0 {
        MultipleStep(col, nrServers, numX);
      }
    }
    assert dim >= 1 && 0 <= col < numX && numX % (dim * nrServers) == 0 ==>
      col != numX - leftOvers * dim by {
      if dim >= 1 && 0 <= col < numX && numX % (dim * nrServers) == 0 {
        MultipleOfProduct(numX, dim, nrServers);
      }
    }
    col == numX - leftOvers * dim
  }

  /** One cycle: the first column and the number of servers that share it out. */
  datatype Cycle = Cycle(col: int, servers: int)

  /**
   * The server count for the cycle at col and the ones after it in the row,
   * given the count nr so far: numX % nr once the last cycle is reached.
   */
  function NextServers(col: int, numX: int, dim: int, nr: int): (nr': int)
    requires dim >= 1 && nr >= 1 && col < numX
    ensures 1 <= nr' <= nr
  {
    if IsLastCycle(col, numX, dim, nr) then
      assert (numX % nr) * dim > 0;
      numX % nr
    else
      nr
  }

  /**
   * The inner loop of the client, `for col in range(col, numX, step)`, where nr
   * is the server count so far: a last cycle cuts it to numX % nr for itself and
   * for any cycle after it in the row.
   */
  function RowCycles(col: int, numX: int, dim: int, step: int, nr: int): (cs: seq<Cycle>)
    requires dim >= 1 && step >= 1 && nr >= 1
    ensures |cs| == 0 <==> col >= numX
    ensures |cs| > 0 ==> cs[0].col == col
    ensures forall i :: 0 <= i < |cs| ==> col <= cs[i].col < numX && 1 <= cs[i].servers <= nr
    decreases numX - col
  {
    if col >= numX then
      []
    else
      var nr' := NextServers(col, numX, dim, nr);
      [Cycle(col, nr')] + RowCycles(col + step, numX, dim, step, nr')
  }

  /**
   * The cycles of one row of tiles: columns 0, dim * S, 2 * dim * S, ... below
   * numX, starting with all S servers.
   */
  function RowSchedule(numX: int, dim: int, nServers: int): (cs: seq<Cycle>)
    requires dim >= 1 && nServers >= 1
    ensures forall i :: 0 <= i < |cs| ==> 0 <= cs[i].col < numX && 1 <= cs[i].servers <= nServers
  {
    MulAtLeast(dim, nServers);
    RowCycles(0, numX, dim, dim * nServers, nServers)
  }

  /** The column just past the blocks of a cycle. */
  function End(c: Cycle, dim: int): int {
    c.col + c.servers * dim
  }

  /**
   * The cycles cover a stretch of a row that ends at the right edge: each one
   * has a server and stays inside the image, each starts where the one before
   * it ends, and the last one ends at column numX.
   */
  predicate CyclesTileRow(cs: seq<Cycle>, numX: int, dim: int) {
    && (forall i :: 0 <= i < |cs| ==> 1 <= cs[i].servers && End(cs[i], dim) <= numX)
    && (forall i :: 0 <= i < |cs| - 1 ==> cs[i + 1].col == End(cs[i], dim))
    && (|cs| > 0 ==> End(cs[|cs| - 1], dim) == numX)
  }

  /** A cycle that ends where a tiling of the rest of the row begins extends it. */
  lemma ConsTile(c: Cycle, tail: seq<Cycle>, numX: int, dim: int)
    requires 1 <= c.servers && End(c, dim) <= numX
    requires CyclesTileRow(tail, numX, dim)
    requires tail == [] ==> End(c, dim) == numX
    requires tail != [] ==> tail[0].col == End(c, dim)
    ensures CyclesTileRow([c] + tail, numX, dim)
  {
    var cs := [c] + tail;
    forall i | 0 <= i < |cs| - 1
      ensures cs[i + 1].col == End(cs[i], dim)
    {
      if i > 0 {
        assert cs[i] == tail[i - 1] && cs[i + 1] == tail[i];
      }
    }
  }

  /** The cycles from col tile the rest of the row when the first fits and those after it tile the row. */
  lemma ConsCycles(col: int, numX: int, dim: int, step: int, nr: int)
    requires dim >= 1 && step >= 1 && nr >= 1 && col < numX
    requires End(Cycle(col, NextServers(col, numX, dim, nr)), dim) <= numX
    requires CyclesTileRow(RowCycles(col + step, numX, dim, step, NextServers(col, numX, dim, nr)), numX, dim)
    requires col + step >= numX ==> End(Cycle(col, NextServers(col, numX, dim, nr)), dim) == numX
    requires col + step < numX ==> col + step == End(Cycle(col, NextServers(col, numX, dim, nr)), dim)
    ensures CyclesTileRow(RowCycles(col, numX, dim, step, nr), numX, dim)
  {
    var c := Cycle(col, NextServers(col, numX, dim, nr));
    var tail := RowCycles(col + step, numX, dim, step, c.servers);
    assert RowCycles(col, numX, dim, step, nr) == [c] + tail;
    ConsTile(c, tail, numX, dim);
  }

  /**
   * One cycle of a row under either condition: its servers fit before the
   * right edge, a last cycle ends exactly there and nothing follows it, and
   * any other cycle is followed by one at the next multiple of a full cycle.
   */
  lemma CycleStep(col: int, numX: int, dim: int, nServers: int)
    requires dim >= 1 && nServers >= 1 && 0 <= col < numX
    requires col % (dim * nServers) == 0
    requires dim == 1 || numX % (dim * nServers) == 0
    ensures dim * nServers >= 1
    ensures End(Cycle(col, NextServers(col, numX, dim, nServers)), dim) <= numX
    ensures End(Cycle(col, NextServers(col, numX, dim, nServers)), dim) == col + dim * nServers
            || (End(Cycle(col, NextServers(col, numX, dim, nServers)), dim) == numX && col + dim * nServers >= numX)
    ensures !IsLastCycle(col, numX, dim, nServers) ==>
      NextServers(col, numX, dim, nServers) == nServers && (col + dim * nServers) % (dim * nServers) == 0
  {
    MulAtLeast(dim, nServers);
    var w := dim * nServers;
    if IsLastCycle(col, numX, dim, nServers) {
      assert dim == 1;
    } else {
      MultipleStep(col, w, numX);
      AddMultiple(col, w);
      assert End(Cycle(col, nServers), dim) == col + w;
    }
  }

  /**
   * From any cycle boundary on, the cycles of a row stay inside the image and
   * tile the rest of it, each one starting where the previous one ended, the
   * last one ending at the right edge. This is the goal the cut in the last
   * cycle aims at, and it holds when tiles are one column wide or the image
   * width is a multiple of a full cycle.
   */
  lemma {:induction false} RowCyclesTile(col: int, numX: int, dim: int, nServers: int)
    requires dim >= 1 && nServers >= 1 && 0 <= col
    requires col % (dim * nServers) == 0
    requires dim == 1 || numX % (dim * nServers) == 0
    ensures CyclesTileRow(RowCycles(col, numX, dim, dim * nServers, nServers), numX, dim)
    decreases numX - col
  {
    MulAtLeast(dim, nServers);
    if col < numX {
      var w := dim * nServers;
      var nr' := NextServers(col, numX, dim, nServers);
      CycleStep(col, numX, dim, nServers);
      if !IsLastCycle(col, numX, dim, nServers) {
        RowCyclesTile(col + w, numX, dim, nServers);
      }
      ConsCycles(col, numX, dim, w, nServers);
    }
  }

  /**
   * A whole row of the client's loop stays in bounds and covers columns 0 ..
   * numX - 1 exactly once, under the same two conditions.
   */
  lemma RowScheduleTiles(numX: int, dim: int, nServers: int)
    requires dim >= 1 && nServers >= 1
    requires dim == 1 || numX % (dim * nServers) == 0
    ensures CyclesTileRow(RowSchedule(numX, dim, nServers), numX, dim)
    ensures numX > 0 ==> |RowSchedule(numX, dim, nServers)| > 0 && RowSchedule(numX, dim, nServers)[0].col == 0
  {
    MulAtLeast(dim, nServers);
    RowCyclesTile(0, numX, dim, nServers);
  }

  /**
   * Ten columns in two-column tiles over three servers: the second cycle still
   * uses all three servers and asks for columns 6 .. 11 of a ten-column image.
   */
  lemma TenColumnsOverrun()
    ensures RowSchedule(10, 2, 3) == [Cycle(0, 3), Cycle(6, 3)]
    ensures End(RowSchedule(10, 2, 3)[1], 2) == 12
  {
    assert !IsLastCycle(0, 10, 2, 3);
    assert !IsLastCycle(6, 10, 2, 3);
    assert RowCycles(12, 10, 2, 6, 3) == [];
    assert RowCycles(6, 10, 2, 6, 3) == [Cycle(6, 3)];
  }

  /** The outer loop, `for row in range(row, numY, dim)`: the first row of each row of tiles. */
  function RowStarts(row: int, numY: int, dim: int): (rs: seq<int>)
    requires dim >= 1
    ensures forall i :: 0 <= i < |rs| ==> row <= rs[i] < numY
    ensures forall i :: 0 <= i < |rs| - 1 ==> rs[i + 1] == rs[i] + dim
    ensures |rs| > 0 <==> row < numY
    ensures |rs| > 0 ==> rs[0] == row
    decreases numY - row
  {
    if row >= numY then [] else [row] + RowStarts(row + dim, numY, dim)
  }

  /**
   * When the image height is a multiple of dim, every row of tiles fits: rows
   * r .. r + dim - 1 all exist.
   */
  lemma {:induction false} RowStartsInBounds(row: int, numY: int, dim: int)
    requires dim >= 1 && 0 <= row && row % dim == 0 && numY % dim == 0
    ensures forall i :: 0 <= i < |RowStarts(row, numY, dim)| ==> RowStarts(row, numY, dim)[i] + dim <= numY
    decreases numY - row
  {
    if row < numY {
      MultipleStep(row, dim, numY);
      AddMultiple(row, dim);
      RowStartsInBounds(row + dim, numY, dim);
    }
  }
}
