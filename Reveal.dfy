/**
 * The reveal engine: the recursive flood fill that opens a cell and, when
 * its number is 0, every neighbour in turn, and the reveal of all mines on
 * a loss. Both update the board array in place.
 */
module Reveal {
  import opened Cells
  import opened Adjacency

  /** A cell the flood fill stops at: already revealed, or flagged. */
  predicate Settled(c: Cell) {
    c.isRevealed || c.isFlagged
  }

  /** t arises from s by revealing cells that were neither revealed nor
      flagged; no other field of any cell changes. */
  ghost predicate OnlyReveals(s: seq<Cell>, t: seq<Cell>) {
    |s| == |t| &&
    forall j :: 0 <= j < |s| ==> t[j] == s[j] || (!Settled(s[j]) && t[j] == s[j].(isRevealed := true))
  }

  predicate NewlyRevealed(s: seq<Cell>, t: seq<Cell>, j: int)
    requires 0 <= j < |s| == |t|
  {
    !s[j].isRevealed && t[j].isRevealed
  }

  /** (dr, dc) is one of the nine offsets the flood fill visits around cell k,
      measured from k's own row and column, and lands on the grid. */
  predicate Near(b: seq<Cell>, rows: int, cols: int, k: int, dr: int, dc: int)
    requires 0 <= k < |b|
  {
    -1 <= dr <= 1 && -1 <= dc <= 1 && InGrid(rows, cols, b[k].row + dr, b[k].col + dc)
  }

  function NearIndex(b: seq<Cell>, rows: int, cols: int, k: int, dr: int, dc: int): (i: int)
    requires |b| == rows * cols && 0 <= k < |b|
    requires Near(b, rows, cols, k, dr, dc)
    ensures 0 <= i < |b|
  {
    IndexInGrid(rows, cols, b[k].row + dr, b[k].col + dc);
    (b[k].row + dr) * cols + (b[k].col + dc)
  }

  /** Every cell the flood fill would visit from k is settled. */
  ghost predicate NeighboursSettled(t: seq<Cell>, rows: int, cols: int, k: int)
    requires |t| == rows * cols && 0 <= k < |t|
  {
    forall dr, dc :: Near(t, rows, cols, k, dr, dc) ==> Settled(t[NearIndex(t, rows, cols, k, dr, dc)])
  }

  /** Every 0-numbered cell revealed between s and t has all its neighbours
      revealed or flagged in t: the cascade did not stop early. */
  ghost predicate Closed(s: seq<Cell>, t: seq<Cell>, rows: int, cols: int)
    requires |s| == |t| == rows * cols
  {
    forall k :: 0 <= k < |t| && NewlyRevealed(s, t, k) && t[k].number == 0 ==> NeighboursSettled(t, rows, cols, k)
  }

  /** The start of a flood fill on a well-formed, consistent board is not a mine. */
  ghost predicate MineSafe(s: seq<Cell>, rows: int, cols: int, index: int)
    requires |s| == rows * cols && 0 <= index < |s|
  {
    0 < cols && WellFormed(s, cols) && Consistent(s, rows, cols) && !s[index].isMine
  }

  ghost predicate NoNewMine(s: seq<Cell>, t: seq<Cell>)
    requires |s| == |t|
  {
    forall j :: 0 <= j < |s| && NewlyRevealed(s, t, j) ==> !t[j].isMine
  }

  /** One link of a flood path: the cell was opened from the 0-numbered cell
      `from`, which lies `depth` links from the start, as its offset (dr, dc). */
  datatype Link = Link(depth: nat, from: int, dr: int, dc: int)

  /** Cell j, revealed between s and t, is the start, or m links it to a
      0-numbered cell revealed between s and t, one offset away and one
      link nearer to the start. */
  ghost predicate LinkOk(s: seq<Cell>, t: seq<Cell>, rows: int, cols: int, start: int, m: map<int, Link>, j: int)
    requires |s| == |t| == rows * cols && 0 <= start < |s| && 0 <= j < |s|
  {
    j in m &&
    if j == start then m[j].depth == 0
    else
      var k := m[j].from;
      0 <= k < |t| && NewlyRevealed(s, t, k) && t[k].number == 0 &&
      k in m && m[k].depth < m[j].depth &&
      Near(t, rows, cols, k, m[j].dr, m[j].dc) && NearIndex(t, rows, cols, k, m[j].dr, m[j].dc) == j
  }

  ghost predicate Linked(s: seq<Cell>, t: seq<Cell>, rows: int, cols: int, start: int, m: map<int, Link>)
    requires |s| == |t| == rows * cols && 0 <= start < |s|
  {
    forall j :: 0 <= j < |t| && NewlyRevealed(s, t, j) ==> LinkOk(s, t, rows, cols, start, m, j)
  }

  /** Every cell revealed between s and t was reached from `start` along a
      path of offsets whose cells, all but the last, are 0-numbered cells
      revealed between s and t: the cascade went nowhere else. */
  ghost predicate Reached(s: seq<Cell>, t: seq<Cell>, rows: int, cols: int, start: int)
    requires |s| == |t| == rows * cols && 0 <= start < |s|
  {
    exists m :: Linked(s, t, rows, cols, start, m)
  }

  /** What one flood fill from `start` achieves, taking board s to board t. */
  ghost predicate FloodPost(s: seq<Cell>, t: seq<Cell>, rows: int, cols: int, start: int)
    requires |s| == rows * cols && 0 <= start < |s|
  {
    |t| == |s| &&
    Settled(t[start]) &&
    (!Settled(s[start]) ==> t[start] == s[start].(isRevealed := true)) &&
    OnlyReveals(s, t) &&
    Closed(s, t, rows, cols) &&
    Reached(s, t, rows, cols, start) &&
    (MineSafe(s, rows, cols, start) ==> NoNewMine(s, t))
  }

  lemma OnlyRevealsTrans(s: seq<Cell>, t: seq<Cell>, u: seq<Cell>)
    requires OnlyReveals(s, t) && OnlyReveals(t, u)
    ensures OnlyReveals(s, u)
  {
  }

  /** Revealing cells never changes identity, mines or numbers. */
  lemma OnlyRevealsLayout(s: seq<Cell>, t: seq<Cell>)
    requires OnlyReveals(s, t)
    ensures SameLayout(s, t)
    ensures forall j :: 0 <= j < |s| ==> s[j].isFlagged == t[j].isFlagged
    ensures forall j :: 0 <= j < |s| && Settled(s[j]) ==> Settled(t[j])
  {
  }

  /** Revealing cells never makes more cells hidden. */
  lemma HiddenShrink(s: seq<Cell>, t: seq<Cell>)
    requires OnlyReveals(s, t)
    ensures Count(t, IsHidden) <= Count(s, IsHidden)
  {
    CountMono(s, t, IsHidden);
  }

  lemma ClosedTrans(s: seq<Cell>, t: seq<Cell>, u: seq<Cell>, rows: int, cols: int)
    requires |s| == rows * cols
    requires OnlyReveals(s, t) && OnlyReveals(t, u)
    requires Closed(s, t, rows, cols) && Closed(t, u, rows, cols)
    ensures Closed(s, u, rows, cols)
  {
    forall k | 0 <= k < |u| && NewlyRevealed(s, u, k) && u[k].number == 0
      ensures NeighboursSettled(u, rows, cols, k)
    {
      if !NewlyRevealed(t, u, k) {
        assert NewlyRevealed(s, t, k);
        forall dr, dc | Near(u, rows, cols, k, dr, dc)
          ensures Settled(u[NearIndex(u, rows, cols, k, dr, dc)])
        {
          assert Near(t, rows, cols, k, dr, dc);
          assert NearIndex(u, rows, cols, k, dr, dc) == NearIndex(t, rows, cols, k, dr, dc);
        }
      }
    }
  }

  /** The state the nested loops of one flood-fill step keep: s0 is the board on
      entry, s1 the board once cell `index` is revealed, t the current board, and
      the first p of the nine offsets (in loop order) have been visited. */
  ghost predicate Progress(s0: seq<Cell>, s1: seq<Cell>, t: seq<Cell>, rows: int, cols: int, index: int, p: int)
    requires |s0| == rows * cols && 0 <= index < |s0|
  {
    !Settled(s0[index]) && s0[index].number == 0 &&
    s1 == s0[index := s0[index].(isRevealed := true)] &&
    |t| == |s0| &&
    OnlyReveals(s1, t) &&
    Closed(s1, t, rows, cols) &&
    Reached(s0, t, rows, cols, index) &&
    (MineSafe(s0, rows, cols, index) ==> NoNewMine(s1, t)) &&
    Count(t, IsHidden) < Count(s0, IsHidden) &&
    PrefixSettled(t, rows, cols, index, p)
  }

  /** The first p of the nine offsets around `index`, in loop order, that land
      on the grid hold settled cells. */
  ghost predicate PrefixSettled(t: seq<Cell>, rows: int, cols: int, index: int, p: int)
    requires |t| == rows * cols && 0 <= index < |t|
  {
    forall dr, dc :: Near(t, rows, cols, index, dr, dc) && (dr + 1) * 3 + (dc + 1) < p ==>
      Settled(t[NearIndex(t, rows, cols, index, dr, dc)])
  }

  /** Revealing more cells keeps the settled prefix, and a settled cell at
      offset (dr, dc), or no cell there, extends it by one offset. */
  lemma PrefixSettledStep(t: seq<Cell>, u: seq<Cell>, rows: int, cols: int, index: int, dr: int, dc: int)
    requires |t| == rows * cols && 0 <= index < |t| && -1 <= dr <= 1 && -1 <= dc <= 1
    requires OnlyReveals(t, u)
    requires PrefixSettled(t, rows, cols, index, (dr + 1) * 3 + (dc + 1))
    requires Near(t, rows, cols, index, dr, dc) ==> Settled(u[NearIndex(t, rows, cols, index, dr, dc)])
    ensures PrefixSettled(u, rows, cols, index, (dr + 1) * 3 + (dc + 1) + 1)
  {
    var p := (dr + 1) * 3 + (dc + 1);
    forall dr', dc' | Near(u, rows, cols, index, dr', dc') && (dr' + 1) * 3 + (dc' + 1) < p + 1
      ensures Settled(u[NearIndex(u, rows, cols, index, dr', dc')])
    {
      assert Near(t, rows, cols, index, dr', dc');
      assert NearIndex(u, rows, cols, index, dr', dc') == NearIndex(t, rows, cols, index, dr', dc');
      if (dr' + 1) * 3 + (dc' + 1) < p {
        assert Settled(t[NearIndex(t, rows, cols, index, dr', dc')]);
      } else {
        assert dr' == dr && dc' == dc;
      }
    }
  }

  lemma FloodStart(s0: seq<Cell>, s1: seq<Cell>, rows: int, cols: int, index: int)
    requires |s0| == rows * cols && 0 <= index < |s0|
    requires !Settled(s0[index]) && s0[index].number == 0
    requires s1 == s0[index := s0[index].(isRevealed := true)]
    ensures Progress(s0, s1, s1, rows, cols, index, 0)
  {
    CountUpdate(s0, index, s1[index], IsHidden);
    OpenStart(s0, s1, rows, cols, index);
  }

  /** Opening the start alone: the start is its own path. */
  lemma OpenStart(s0: seq<Cell>, s1: seq<Cell>, rows: int, cols: int, index: int)
    requires |s0| == rows * cols && 0 <= index < |s0|
    requires s1 == s0[index := s0[index].(isRevealed := true)]
    ensures Reached(s0, s1, rows, cols, index)
  {
    var m := map[index := Link(0, index, 0, 0)];
    assert Linked(s0, s1, rows, cols, index, m);
  }

  /** A link of a neighbour's flood path, moved one link further from the
      start; the neighbour itself now hangs off cell `index`. */
  function Graft(l: Link, root: bool, index: int, dr: int, dc: int): (r: Link)
    ensures r.depth == l.depth + 1
    ensures root ==> r.from == index
    ensures !root ==> r.from == l.from && r.dr == l.dr && r.dc == l.dc
  {
    if root then Link(l.depth + 1, index, dr, dc) else l.(depth := l.depth + 1)
  }

  /** A cell revealed before the neighbour's flood keeps its link. */
  lemma LinkKept(s0: seq<Cell>, t: seq<Cell>, u: seq<Cell>, rows: int, cols: int, index: int,
                 m: map<int, Link>, n: map<int, Link>, j: int)
    requires |s0| == |t| == rows * cols && 0 <= index < |s0| && 0 <= j < |s0|
    requires OnlyReveals(t, u)
    requires forall i :: 0 <= i < |t| && NewlyRevealed(s0, t, i) ==> i in m && i in n && n[i] == m[i]
    requires NewlyRevealed(s0, t, j) && LinkOk(s0, t, rows, cols, index, m, j)
    ensures LinkOk(s0, u, rows, cols, index, n, j)
  {
    if j != index {
      var k := m[j].from;
      assert NewlyRevealed(s0, t, k);
      assert Near(u, rows, cols, k, m[j].dr, m[j].dc);
    }
  }

  /** A cell the neighbour's flood revealed takes the neighbour's link, moved. */
  lemma LinkGrafted(s0: seq<Cell>, t: seq<Cell>, u: seq<Cell>, rows: int, cols: int, index: int, dr: int, dc: int,
                    m2: map<int, Link>, n: map<int, Link>, j: int)
    requires |s0| == |t| == rows * cols && 0 <= index < |s0| && 0 <= j < |s0|
    requires OnlyReveals(s0, t) && OnlyReveals(t, u)
    requires NewlyRevealed(s0, t, index) && t[index].number == 0
    requires Near(t, rows, cols, index, dr, dc)
    requires index in n && n[index].depth == 0
    requires forall i :: 0 <= i < |t| && NewlyRevealed(t, u, i) ==>
      i in m2 && i in n && n[i] == Graft(m2[i], i == NearIndex(t, rows, cols, index, dr, dc), index, dr, dc)
    requires NewlyRevealed(t, u, j) && LinkOk(t, u, rows, cols, NearIndex(t, rows, cols, index, dr, dc), m2, j)
    ensures LinkOk(s0, u, rows, cols, index, n, j)
  {
    var nb := NearIndex(t, rows, cols, index, dr, dc);
    assert j != index;
    if j != nb {
      var k := m2[j].from;
      assert NewlyRevealed(t, u, k);
    } else {
      assert Near(u, rows, cols, index, dr, dc);
    }
  }

  /** The paths from `index` once the flood from its neighbour nb has run:
      the cells that flood revealed take its links, grafted under `index`;
      every other cell keeps its link in m. */
  ghost function Grafted(t: seq<Cell>, u: seq<Cell>, m: map<int, Link>, m2: map<int, Link>,
                         nb: int, index: int, dr: int, dc: int): (n: map<int, Link>)
    requires |t| == |u|
    ensures forall i :: 0 <= i < |t| && NewlyRevealed(t, u, i) && i in m2 ==>
      i in n && n[i] == Graft(m2[i], i == nb, index, dr, dc)
    ensures forall i :: i in m && !(0 <= i < |t| && NewlyRevealed(t, u, i) && i in m2) ==>
      i in n && n[i] == m[i]
  {
    map j | j in m.Keys + m2.Keys ::
      if j in m2 && 0 <= j < |t| && NewlyRevealed(t, u, j) then Graft(m2[j], j == nb, index, dr, dc)
      else if j in m then m[j] else m2[j]
  }

  /** A flood fill from a neighbour of the 0-numbered cell `index` extends
      the paths from `index`: the neighbour's own paths hang off `index`. */
  lemma LinkStep(s0: seq<Cell>, t: seq<Cell>, u: seq<Cell>, rows: int, cols: int, index: int, dr: int, dc: int)
    requires |s0| == |t| == rows * cols && 0 <= index < |s0|
    requires OnlyReveals(s0, t) && OnlyReveals(t, u)
    requires NewlyRevealed(s0, t, index) && t[index].number == 0
    requires Near(t, rows, cols, index, dr, dc)
    requires Reached(s0, t, rows, cols, index)
    requires Reached(t, u, rows, cols, NearIndex(t, rows, cols, index, dr, dc))
    ensures Reached(s0, u, rows, cols, index)
  {
    var nb := NearIndex(t, rows, cols, index, dr, dc);
    var m :| Linked(s0, t, rows, cols, index, m);
    var m2 :| Linked(t, u, rows, cols, nb, m2);
    var n := Grafted(t, u, m, m2, nb, index, dr, dc);
    assert LinkOk(s0, t, rows, cols, index, m, index);
    forall i | 0 <= i < |t| && NewlyRevealed(s0, t, i)
      ensures i in m && i in n && n[i] == m[i]
    {
      assert LinkOk(s0, t, rows, cols, index, m, i);
    }
    forall j | 0 <= j < |u| && NewlyRevealed(s0, u, j)
      ensures LinkOk(s0, u, rows, cols, index, n, j)
    {
      if NewlyRevealed(t, u, j) {
        assert LinkOk(t, u, rows, cols, nb, m2, j);
        LinkGrafted(s0, t, u, rows, cols, index, dr, dc, m2, n, j);
      } else {
        assert LinkOk(s0, t, rows, cols, index, m, j);
        LinkKept(s0, t, u, rows, cols, index, m, n, j);
      }
    }
    assert Linked(s0, u, rows, cols, index, n);
  }

  /** R is closed under the cascade on board s: from every cell of R that a
      flood fill would open and cascade from (hidden, unflagged, numbered 0),
      every offset on the grid lands in R again. */
  ghost predicate Confining(s: seq<Cell>, rows: int, cols: int, region: set<int>)
    requires |s| == rows * cols
  {
    forall k, dr, dc ::
      (0 <= k < |s| && k in region && !Settled(s[k]) && s[k].number == 0 && Near(s, rows, cols, k, dr, dc))
      ==> NearIndex(s, rows, cols, k, dr, dc) in region
  }

  /** A cell reached by a flood path from a start in a closed region lies in
      the region; by induction on the cell's distance from the start. */
  lemma {:induction false} ConfinedAt(s: seq<Cell>, t: seq<Cell>, rows: int, cols: int, start: int,
                                      m: map<int, Link>, region: set<int>, j: int)
    requires |s| == |t| == rows * cols && 0 <= start < |s| && 0 <= j < |s|
    requires OnlyReveals(s, t) && Linked(s, t, rows, cols, start, m)
    requires start in region && Confining(s, rows, cols, region)
    requires NewlyRevealed(s, t, j)
    ensures j in region
    decreases m[j].depth
  {
    assert LinkOk(s, t, rows, cols, start, m, j);
    if j != start {
      var k, dr, dc := m[j].from, m[j].dr, m[j].dc;
      assert LinkOk(s, t, rows, cols, start, m, k);
      ConfinedAt(s, t, rows, cols, start, m, region, k);
      assert Near(s, rows, cols, k, dr, dc) && NearIndex(s, rows, cols, k, dr, dc) == j;
    }
  }

  /** A flood fill, or any reveal whose cells its cascade reaches, changes no
      cell outside a closed region around its start:
      whatever lies beyond flagged, revealed or numbered cells that enclose
      the start is left as it was. */
  lemma FloodConfined(s: seq<Cell>, t: seq<Cell>, rows: int, cols: int, start: int, region: set<int>)
    requires |s| == rows * cols && 0 <= start < |s|
    requires |t| == |s| && OnlyReveals(s, t) && Reached(s, t, rows, cols, start)
    requires start in region && Confining(s, rows, cols, region)
    ensures forall j :: 0 <= j < |s| && j !in region ==> t[j] == s[j]
  {
    var m :| Linked(s, t, rows, cols, start, m);
    forall j | 0 <= j < |s| && j !in region
      ensures t[j] == s[j]
    {
      if t[j] != s[j] {
        ConfinedAt(s, t, rows, cols, start, m, region, j);
      }
    }
  }

  /** Flooding again from the same start changes nothing: the first flood
      leaves the start settled, and a settled start is a closed region of
      its own. */
  lemma FloodIdempotent(s: seq<Cell>, t: seq<Cell>, u: seq<Cell>, rows: int, cols: int, start: int)
    requires |s| == rows * cols && 0 <= start < |s|
    requires FloodPost(s, t, rows, cols, start) && FloodPost(t, u, rows, cols, start)
    ensures u == t
  {
    assert Confining(t, rows, cols, {start});
    FloodConfined(t, u, rows, cols, start, {start});
  }

  /** The flood barrier on a 1 x 3 grid with no mines, every number 0 and the
      middle cell flagged: a flood from the left cell opens that cell only,
      and the cell behind the flag stays hidden. */
  lemma FloodBarrierExample(s: seq<Cell>, t: seq<Cell>)
    requires |s| == 3
    requires forall j :: 0 <= j < 3 ==> s[j] == Cell(j, 0, j, false, 0, false, j == 1)
    requires FloodPost(s, t, 1, 3, 0)
    ensures t == s[0 := s[0].(isRevealed := true)]
    ensures !t[2].isRevealed
  {
    forall k, dr, dc | 0 <= k < |s| && k in {0, 1} && !Settled(s[k]) && s[k].number == 0 &&
      Near(s, 1, 3, k, dr, dc)
      ensures NearIndex(s, 1, 3, k, dr, dc) in {0, 1}
    {
      assert k == 0;
    }
    FloodConfined(s, t, 1, 3, 0, {0, 1});
    assert t[1] == s[1];
  }

  /** A flood fill that stops at once: a settled start changes nothing. */
  lemma FloodNone(s: seq<Cell>, rows: int, cols: int, index: int)
    requires |s| == rows * cols && 0 <= index < |s|
    requires Settled(s[index])
    ensures FloodPost(s, s, rows, cols, index)
  {
    var m: map<int, Link> := map[];
    assert Linked(s, s, rows, cols, index, m);
  }

  /** A flood fill that opens a numbered start and goes no further. */
  lemma FloodSingle(s0: seq<Cell>, s1: seq<Cell>, rows: int, cols: int, index: int)
    requires |s0| == rows * cols && 0 <= index < |s0|
    requires !Settled(s0[index]) && s0[index].number != 0
    requires s1 == s0[index := s0[index].(isRevealed := true)]
    ensures FloodPost(s0, s1, rows, cols, index)
  {
    OpenStart(s0, s1, rows, cols, index);
  }

  /** A neighbour of a 0-numbered, safe start is itself a safe start. */
  lemma NeighbourSafe(s0: seq<Cell>, t: seq<Cell>, rows: int, cols: int, index: int, dr: int, dc: int)
    requires |s0| == rows * cols && 0 <= index < |s0|
    requires MineSafe(s0, rows, cols, index) && s0[index].number == 0
    requires OnlyReveals(s0, t)
    requires Near(t, rows, cols, index, dr, dc)
    ensures MineSafe(t, rows, cols, NearIndex(t, rows, cols, index, dr, dc))
  {
    OnlyRevealsLayout(s0, t);
    var r, c := s0[index].row, s0[index].col;
    ConsistentFrame(s0, t, rows, cols);
    assert WellFormed(t, cols);
    var i := NearIndex(t, rows, cols, index, dr, dc);
    if dr == 0 && dc == 0 {
      assert r == index / cols && c == index % cols;
      DivMod(index, cols);
      assert i == index;
    } else {
      assert NumberOk(s0, rows, cols, index);
      NoMineNearZero(s0, rows, cols, r, c, dr, dc);
    }
  }

  lemma DivMod(i: int, cols: int)
    requires 0 < cols
    ensures (i / cols) * cols + i % cols == i
  {
  }

  lemma FloodStep(s0: seq<Cell>, s1: seq<Cell>, t: seq<Cell>, u: seq<Cell>, rows: int, cols: int, index: int, dr: int, dc: int)
    requires |s0| == rows * cols && 0 <= index < |s0|
    requires -1 <= dr <= 1 && -1 <= dc <= 1
    requires Progress(s0, s1, t, rows, cols, index, (dr + 1) * 3 + (dc + 1))
    requires Near(t, rows, cols, index, dr, dc) ==> FloodPost(t, u, rows, cols, NearIndex(t, rows, cols, index, dr, dc))
    requires !Near(t, rows, cols, index, dr, dc) ==> u == t
    ensures Progress(s0, s1, u, rows, cols, index, (dr + 1) * 3 + (dc + 1) + 1)
  {
    if Near(t, rows, cols, index, dr, dc) {
      assert OnlyReveals(s0, s1);
      OnlyRevealsTrans(s0, s1, t);
      LinkStep(s0, t, u, rows, cols, index, dr, dc);
      OnlyRevealsTrans(s1, t, u);
      ClosedTrans(s1, t, u, rows, cols);
      HiddenShrink(t, u);
      OnlyRevealsLayout(t, u);
      if MineSafe(s0, rows, cols, index) {
        NeighbourSafe(s0, t, rows, cols, index, dr, dc);
      }
      PrefixSettledStep(t, u, rows, cols, index, dr, dc);
    } else {
      PrefixSettledStep(t, u, rows, cols, index, dr, dc);
    }
  }

  lemma FloodFinish(s0: seq<Cell>, s1: seq<Cell>, t: seq<Cell>, rows: int, cols: int, index: int)
    requires |s0| == rows * cols && 0 <= index < |s0|
    requires Progress(s0, s1, t, rows, cols, index, 9)
    ensures FloodPost(s0, t, rows, cols, index)
  {
    assert OnlyReveals(s0, s1);
    OnlyRevealsTrans(s0, s1, t);
    forall k | 0 <= k < |t| && NewlyRevealed(s0, t, k) && t[k].number == 0
      ensures NeighboursSettled(t, rows, cols, k)
    {
      if k != index {
        assert NewlyRevealed(s1, t, k);
      }
    }
  }

  /** revealCellsRecursive: open `index` unless it is revealed or flagged and,
      when its number is 0, recurse into all nine offsets around it (the cell
      itself included, which the first test then stops). Terminates because
      every recursive call starts with fewer hidden cells. A second call from
      the same cell changes nothing, since the first leaves it settled. */
  method RevealCellsRecursive(a: array<Cell>, rows: int, cols: int, index: int)
    requires a.Length == rows * cols && 0 <= index < a.Length
    modifies a
    ensures Settled(old(a[index])) ==> a[..] == old(a[..])
    ensures FloodPost(old(a[..]), a[..], rows, cols, index)
    decreases Count(a[..], IsHidden)
  {
    var cell := a[index];
    if cell.isRevealed || cell.isFlagged {
      FloodNone(a[..], rows, cols, index);
      return;
    }
    ghost var s0 := a[..];
    a[index] := cell.(isRevealed := true);
    ghost var s1 := a[..];
    assert s1 == s0[index := cell.(isRevealed := true)];
    if cell.number == 0 {
      FloodStart(s0, s1, rows, cols, index);
      var r, c := cell.row, cell.col;
      for dr := -1 to 2
        invariant Progress(s0, s1, a[..], rows, cols, index, (dr + 1) * 3)
      {
        for dc := -1 to 2
          invariant Progress(s0, s1, a[..], rows, cols, index, (dr + 1) * 3 + (dc + 1))
        {
          ghost var t := a[..];
          assert t[index].row == r && t[index].col == c;
          var nr, nc := r + dr, c + dc;
          if 0 <= nr < rows && 0 <= nc < cols {
            assert Near(t, rows, cols, index, dr, dc) && NearIndex(t, rows, cols, index, dr, dc) == nr * cols + nc;
            assert Count(t, IsHidden) < Count(s0, IsHidden);
            RevealCellsRecursive(a, rows, cols, nr * cols + nc);
          }
          FloodStep(s0, s1, t, a[..], rows, cols, index, dr, dc);
        }
      }
      FloodFinish(s0, s1, a[..], rows, cols, index);
    } else {
      FloodSingle(s0, s1, rows, cols, index);
    }
  }

  /** The loss branch of onCellClick: reveal every mine, leave every other cell as it is. */
  method RevealAllMines(a: array<Cell>)
    modifies a
    ensures forall j :: 0 <= j < a.Length ==>
      a[j] == if old(a[j]).isMine then old(a[j]).(isRevealed := true) else old(a[j])
  {
    for idx := 0 to a.Length
      invariant forall j :: 0 <= j < idx ==>
        a[j] == if old(a[j]).isMine then old(a[j]).(isRevealed := true) else old(a[j])
      invariant forall j :: idx <= j < a.Length ==> a[j] == old(a[j])
    {
      if a[idx].isMine {
        a[idx] := a[idx].(isRevealed := true);
      }
    }
  }
}
