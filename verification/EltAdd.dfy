/** The tile loop of the elementwise-add kernel: which bursts its threads read and write. */
module EltAdd {
  import opened Bits
  import opened AddressMap

  datatype Access = Read(address: nat) | Write(address: nat)

  const TILE: nat := 8

  /** Burst number loc of a bank, counted along the columns of its rows from `start` on. */
  function Burst(ch: nat, ba: nat, start: nat, loc: nat): Location {
    Location(ch, 0, 0, ba, start + loc / COLUMNS, loc % COLUMNS)
  }

  /** The address of one 16-byte half of a burst. */
  function HalfBurst(ch: nat, ba: nat, start: nat, loc: nat, half: nat): nat {
    Half(ch, half, ba, start + loc / COLUMNS, loc % COLUMNS)
  }

  /** What tile t of a thread issues: the even-bank input, its odd-bank twin, and the output behind all inputs. */
  predicate TileDone(log: seq<Access>, ch: nat, tid: nat, start: nat, tiles: nat, t: nat)
    requires 3 * t + 2 < |log|
  {
    var loc := 8 * t + tid / 2;
    var out := loc + 8 * tiles;
    && log[3 * t] == Read(AddrOf(6, Location(ch, 0, 0, 0, start + loc / 32, loc % 32)) + tid % 2 * 0x10)
    && log[3 * t + 1] == Read(AddrOf(6, Location(ch, 0, 0, 1, start + loc / 32, loc % 32)) + tid % 2 * 0x10)
    && log[3 * t + 2] == Write(AddrOf(6, Location(ch, 0, 0, 1, start + out / 32, out % 32)) + tid % 2 * 0x10)
  }

  lemma TileBursts(log: seq<Access>, ch: nat, tid: nat, start: nat, tiles: nat, t: nat)
    requires 3 * t + 2 < |log|
    ensures var loc, half := TILE * t + tid / 2, tid % 2;
      TileDone(log, ch, tid, start, tiles, t) <==>
        && log[3 * t] == Read(HalfBurst(ch, 0, start, loc, half))
        && log[3 * t + 1] == Read(HalfBurst(ch, 1, start, loc, half))
        && log[3 * t + 2] == Write(HalfBurst(ch, 1, start, loc + TILE * tiles, half))
  {
  }

  predicate Issued(log: seq<Access>, ch: nat, tid: nat, start: nat, tiles: nat) {
    |log| == 3 * tiles && forall t :: 0 <= t < tiles ==> TileDone(log, ch, tid, start, tiles, t)
  }

  method EltAddTiles(ch: nat, tid: nat, start: nat, tiles: nat) returns (log: seq<Access>)
    requires InGrid(ch, tid)
    ensures Issued(log, ch, tid, start, tiles)
  {
    log := [];
    var tile := 0;
    while tile < tiles
      invariant tile <= tiles && |log| == 3 * tile
      invariant forall t :: 0 <= t < tile ==> TileDone(log, ch, tid, start, tiles, t)
    {
      ghost var before := log;
      var accesses := EltAddTile(ch, tid, start, tiles, tile);
      log := log + accesses;
      forall t | 0 <= t < tile ensures TileDone(log, ch, tid, start, tiles, t) {
        StillDone(before, accesses, ch, tid, start, tiles, t);
      }
      TileBursts(log, ch, tid, start, tiles, tile);
      tile := tile + 1;
    }
  }

  /** The body of the loop. */
  method EltAddTile(ch: nat, tid: nat, start: nat, tiles: nat, tile: nat) returns (log: seq<Access>)
    requires InGrid(ch, tid)
    ensures |log| == 3 && log[0].Read? && log[1].Read? && log[2].Write?
    ensures var loc, half := TILE * tile + tid / 2, tid % 2;
      && log[0].address == HalfBurst(ch, 0, start, loc, half) && log[1].address == HalfBurst(ch, 1, start, loc, half)
      && log[2].address == HalfBurst(ch, 1, start, loc + TILE * tiles, half)
  {
    var half := tid % 2;
    var loc := tile * TILE + tid / 2;
    var addr := HalfAddress(ch, 0, start, loc, half);
    log := [Read(addr), Read(addr + 0x2000)];
    TwinHalf(ch, start, loc, half);
    addr := HalfAddress(ch, 1, start, loc + tiles * TILE, half);
    log := log + [Write(addr)];
  }

  /** The row and the column that a burst number stands for. */
  method HalfAddress(ch: nat, ba: nat, start: nat, loc: nat, half: nat) returns (addr: nat)
    ensures addr == HalfBurst(ch, ba, start, loc, half)
  {
    var row, col := start + loc / COLUMNS, loc % COLUMNS;
    addr := AddrGen(6, ch, 0, 0, ba, row, col);
    addr := addr + half * 0x10;
  }

  /** One rank holds 14 row bits above 20 lower ones. */
  const RANK_BYTES: nat := 0x4_0000_0000

  lemma RankBytes(bits: nat)
    requires bits == 34
    ensures Pow2(bits) == RANK_BYTES
  {
    WordPower();
    Pow2Sum(32, bits - 32);
    assert Pow2(2) == 4;
  }

  /** addr + 0x2000 is the same burst of the odd bank, whatever the row. */
  lemma TwinOf(ch: nat, row: nat, col: nat, half: nat)
    requires ch < 64 && col < 32
    ensures AddrOf(6, Location(ch, 0, 0, 0, row, col)) + 0x2000 + 16 * half
         == AddrOf(6, Location(ch, 0, 0, 1, row, col)) + 16 * half
  {
    SixBits();
    OddTwin(6, Location(ch, 0, 0, 0, row, col));
  }

  lemma TwinHalf(ch: nat, start: nat, loc: nat, half: nat)
    requires ch < CHANNELS
    ensures HalfBurst(ch, 0, start, loc, half) + 0x2000 == HalfBurst(ch, 1, start, loc, half)
  {
    TwinOf(ch, start + loc / COLUMNS, loc % COLUMNS, half);
  }

  lemma StillDone(log: seq<Access>, more: seq<Access>, ch: nat, tid: nat, start: nat, tiles: nat, t: nat)
    requires 3 * t + 2 < |log| && TileDone(log, ch, tid, start, tiles, t)
    ensures TileDone(log + more, ch, tid, start, tiles, t)
  {
  }

  // ----- every half of every burst, once -----

  lemma HalfBurstInjective(ch: nat, ba: nat, loc: nat, half: nat, ch': nat, ba': nat, loc': nat, half': nat, start: nat)
    requires ch < CHANNELS && ch' < CHANNELS && ba < 2 && ba' < 2 && half < 2 && half' < 2
    ensures HalfBurst(ch, ba, start, loc, half) == HalfBurst(ch', ba', start, loc', half')
       <==> ch == ch' && ba == ba' && loc == loc' && half == half'
  {
    HalfInjective(ch, half, ba, start + loc / COLUMNS, loc % COLUMNS,
                  ch', half', ba', start + loc' / COLUMNS, loc' % COLUMNS);
    SameBurst(loc, loc');
  }

  /** The place in a log: tile t and one of its three accesses. */
  lemma PlaceOf(j: nat, tiles: nat) returns (t: nat, k: nat)
    requires j < 3 * tiles
    ensures j == 3 * t + k && k < 3 && t < tiles
  {
    t, k := j / 3, j % 3;
  }

  lemma SameTile(loc: nat, half: nat, tid: nat, t: nat)
    requires half < 2 && tid < THREADS
    ensures TILE * t + tid / 2 == loc && tid % 2 == half <==> tid == 2 * (loc % TILE) + half && t == loc / TILE
  {
    assert loc == TILE * (loc / TILE) + loc % TILE;
    DivUnique(TILE * t + tid / 2, TILE, t, tid / 2);
  }

  /**
   * Both inputs of every burst half are read at exactly one place of one thread of one channel, wherever the rows start
   * and whether or not they fit the row field.
   */
  lemma ReadExactlyOnce(ch: nat, ba: nat, r: nat, col: nat, half: nat, start: nat, tiles: nat, ch': nat, tid: nat,
                        log: seq<Access>, j: nat)
    requires ch < 64 && ba < 2 && col < 32 && 32 * r + col < 8 * tiles && half < 2
    requires InGrid(ch', tid) && Issued(log, ch', tid, start, tiles) && j < |log|
    ensures log[j] == Read(AddrOf(6, Location(ch, 0, 0, ba, start + r, col)) + 16 * half)
       <==> ch' == ch && tid == 2 * (col % 8) + half && j == 3 * ((32 * r + col) / 8) + ba
  {
    BurstAt(ch, ba, start, r, col, half);
    LocReadOnce(ch, ba, 32 * r + col, half, start, tiles, ch', tid, log, j);
    ThreadOf(r, col);
  }

  /** A row and a column of it as a burst number. */
  lemma BurstAt(ch: nat, ba: nat, start: nat, r: nat, col: nat, half: nat)
    requires col < 32
    ensures HalfBurst(ch, ba, start, 32 * r + col, half) == AddrOf(6, Location(ch, 0, 0, ba, start + r, col)) + 16 * half
  {
    DivUnique(32 * r + col, 32, r, col);
  }

  lemma ThreadOf(r: nat, col: nat)
    ensures (32 * r + col) % TILE == col % TILE
  {
    assert 32 * r + col == TILE * (4 * r + col / TILE) + col % TILE;
    DivUnique(32 * r + col, TILE, 4 * r + col / TILE, col % TILE);
  }

  lemma LocReadOnce(ch: nat, ba: nat, loc: nat, half: nat, start: nat, tiles: nat, ch': nat, tid: nat,
                    log: seq<Access>, j: nat)
    requires ch < CHANNELS && ba < 2 && loc < TILE * tiles && half < 2
    requires InGrid(ch', tid) && Issued(log, ch', tid, start, tiles) && j < |log|
    ensures log[j] == Read(HalfBurst(ch, ba, start, loc, half))
       <==> ch' == ch && tid == 2 * (loc % TILE) + half && j == 3 * (loc / TILE) + ba
  {
    var t, k := PlaceOf(j, tiles);
    assert TileDone(log, ch', tid, start, tiles, t);
    TileBursts(log, ch', tid, start, tiles, t);
    SameTile(loc, half, tid, t);
    HalfBurstInjective(ch', k % 2, TILE * t + tid / 2, tid % 2, ch, ba, loc, half, start);
  }

  /** The output half of every burst is written at exactly one place. */
  lemma WrittenExactlyOnce(ch: nat, r: nat, col: nat, half: nat, start: nat, tiles: nat, ch': nat, tid: nat,
                           log: seq<Access>, j: nat)
    requires ch < 64 && col < 32 && 8 * tiles <= 32 * r + col < 16 * tiles && half < 2
    requires InGrid(ch', tid) && Issued(log, ch', tid, start, tiles) && j < |log|
    ensures log[j] == Write(AddrOf(6, Location(ch, 0, 0, 1, start + r, col)) + 16 * half)
       <==> ch' == ch && tid == 2 * (col % 8) + half && j == 3 * ((32 * r + col - 8 * tiles) / 8) + 2
  {
    var loc: nat := 32 * r + col - 8 * tiles;
    BurstAt(ch, 1, start, r, col, half);
    LocWrittenOnce(ch, loc, half, start, tiles, ch', tid, log, j);
    ThreadOf(r, col);
    SameThread(loc, tiles);
  }

  lemma SameThread(loc: nat, tiles: nat)
    ensures (loc + 8 * tiles) % TILE == loc % TILE
  {
    DivUnique(loc + 8 * tiles, TILE, loc / TILE + tiles, loc % TILE);
  }

  lemma LocWrittenOnce(ch: nat, loc: nat, half: nat, start: nat, tiles: nat, ch': nat, tid: nat, log: seq<Access>, j: nat)
    requires ch < CHANNELS && loc < TILE * tiles && half < 2
    requires InGrid(ch', tid) && Issued(log, ch', tid, start, tiles) && j < |log|
    ensures log[j] == Write(HalfBurst(ch, 1, start, loc + TILE * tiles, half))
       <==> ch' == ch && tid == 2 * (loc % TILE) + half && j == 3 * (loc / TILE) + 2
  {
    var t, k := PlaceOf(j, tiles);
    assert TileDone(log, ch', tid, start, tiles, t);
    TileBursts(log, ch', tid, start, tiles, t);
    SameTile(loc, half, tid, t);
    HalfBurstInjective(ch', 1, TILE * t + tid / 2 + TILE * tiles, tid % 2, ch, 1, loc + TILE * tiles, half, start);
  }

  /** No thread writes into the 16 bytes that any thread reads. */
  lemma OutputsAvoidInputs(start: nat, tiles: nat, ch: nat, tid: nat, log: seq<Access>, j: nat,
                           ch': nat, tid': nat, log': seq<Access>, j': nat)
    requires InGrid(ch, tid) && Issued(log, ch, tid, start, tiles) && j < |log| && log[j].Write?
    requires InGrid(ch', tid') && Issued(log', ch', tid', start, tiles) && j' < |log'| && log'[j'].Read?
    ensures log[j].address + 0x10 <= log'[j'].address || log'[j'].address + 0x10 <= log[j].address
  {
    var t, k := PlaceOf(j, tiles);
    var t', k' := PlaceOf(j', tiles);
    assert TileDone(log, ch, tid, start, tiles, t);
    assert TileDone(log', ch', tid', start, tiles, t');
    TileBursts(log, ch, tid, start, tiles, t);
    TileBursts(log', ch', tid', start, tiles, t');
    var loc, loc' := TILE * t + tid / 2, TILE * t' + tid' / 2;
    HalfBurstInjective(ch, 1, loc + TILE * tiles, tid % 2, ch', k', loc', tid' % 2, start);
    HalfAligned(ch, 1, start, loc + TILE * tiles, tid % 2);
    HalfAligned(ch', k', start, loc', tid' % 2);
    Apart(log[j].address, log'[j'].address);
  }

  lemma HalfAligned(ch: nat, ba: nat, start: nat, loc: nat, half: nat)
    requires ch < CHANNELS && ba < 2
    ensures HalfBurst(ch, ba, start, loc, half) % 0x10 == 0
  {
    SixBits();
    var a := AddrOf(6, Burst(ch, ba, start, loc));
    RowFits(6, Burst(ch, ba, start, loc));
    DivUnique(a + half * 0x10, 0x10, 2 * (a / 32) + half, 0);
  }

  lemma Apart(a: nat, b: nat)
    requires a != b && a % 0x10 == 0 && b % 0x10 == 0
    ensures a + 0x10 <= b || b + 0x10 <= a
  {
  }

  /** All the accesses of a thread stay in rank 0 exactly when its last output row fits the row field. */
  lemma StaysInRank(ch: nat, tid: nat, start: nat, tiles: nat, log: seq<Access>)
    requires InGrid(ch, tid) && Issued(log, ch, tid, start, tiles) && tiles > 0
    ensures (forall j :: 0 <= j < |log| ==> log[j].address < RANK_BYTES)
       <==> HighestRow(start, tiles, tid) < 0x4000
  {
    forall j | 0 <= j < |log| ensures HighestRow(start, tiles, tid) < 0x4000 ==> log[j].address < RANK_BYTES {
      EachInRank(ch, tid, start, tiles, log, j);
    }
    LastInRank(ch, tid, start, tiles, log);
  }

  lemma EachInRank(ch: nat, tid: nat, start: nat, tiles: nat, log: seq<Access>, j: nat)
    requires InGrid(ch, tid) && Issued(log, ch, tid, start, tiles) && tiles > 0 && j < |log|
    ensures HighestRow(start, tiles, tid) < 0x4000 ==> log[j].address < RANK_BYTES
  {
    var t, k := PlaceOf(j, tiles);
    assert TileDone(log, ch, tid, start, tiles, t);
    var loc := if k < 2 then TILE * t + tid / 2 else TILE * t + tid / 2 + TILE * tiles;
    HalfFits(ch, if k == 0 then 0 else 1, start, loc, tid % 2);
    RowMonotone(start, loc, 2 * TILE * tiles - TILE + tid / 2);
  }

  lemma LastInRank(ch: nat, tid: nat, start: nat, tiles: nat, log: seq<Access>)
    requires InGrid(ch, tid) && Issued(log, ch, tid, start, tiles) && tiles > 0
    ensures log[3 * tiles - 1].address < RANK_BYTES <==> HighestRow(start, tiles, tid) < 0x4000
  {
    assert TileDone(log, ch, tid, start, tiles, tiles - 1);
    HalfFits(ch, 1, start, TILE * (tiles - 1) + tid / 2 + TILE * tiles, tid % 2);
  }

  function HighestRow(start: nat, tiles: nat, tid: nat): nat
    requires tiles > 0
  {
    start + (2 * TILE * tiles - TILE + tid / 2) / COLUMNS
  }

  lemma RowMonotone(start: nat, loc: nat, loc': nat)
    requires loc <= loc'
    ensures start + loc / COLUMNS <= start + loc' / COLUMNS
  {
  }

  lemma HalfFits(ch: nat, ba: nat, start: nat, loc: nat, half: nat)
    requires ch < CHANNELS && ba < 2 && half < 2
    ensures HalfBurst(ch, ba, start, loc, half) < RANK_BYTES <==> start + loc / COLUMNS < 0x4000
  {
    SixBits();
    RankBytes(28 + 6);
    RowFits(6, Burst(ch, ba, start, loc));
    BelowMultiple(AddrOf(6, Burst(ch, ba, start, loc)), RANK_BYTES / 32, half * 0x10);
  }

  lemma BelowMultiple(a: nat, p: nat, r: nat)
    requires a % 32 == 0 && r < 32
    ensures a + r < 32 * p <==> a < 32 * p
  {
  }
}
