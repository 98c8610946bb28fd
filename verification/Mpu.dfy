/** Loading the memory protection unit (section B3.5 of the Armv7-M Architecture Reference Manual):
    the chunked copy through the alias registers against one SetRegion call per table row. */
module Mpu {

  /** One region: the address field of RBAR, and RASR. */
  datatype Region = Region(base: bv32, rasr: bv32)

  /** A table row (`ARM_MPU_Region_t`). */
  datatype Row = Row(rbar: bv32, rasr: bv32)

  /** RNR and the regions behind it; a region never written is in its reset state. */
  datatype MpuState = MpuState(rnr: nat, regions: map<nat, Region>)

  const RALIASES := 4

  const RESET_REGION := Region(0, 0)

  /** The VALID bit of an RBAR value: the write also selects the region in its low bits. */
  predicate Selects(rbar: bv32) { rbar & 0x10 != 0 }

  function RegionField(rbar: bv32): nat { (rbar & 0xF) as nat }

  function AddressField(rbar: bv32): bv32 { rbar & 0xFFFF_FFE0 }

  function At(s: MpuState, k: nat): Region {
    if k in s.regions then s.regions[k] else RESET_REGION
  }

  // ---------- single register writes ----------

  function WriteRbar(s: MpuState, rbar: bv32): MpuState {
    var k := if Selects(rbar) then RegionField(rbar) else s.rnr;
    MpuState(k, s.regions[k := At(s, k).(base := AddressField(rbar))])
  }

  function WriteRasr(s: MpuState, rasr: bv32): MpuState {
    s.(regions := s.regions[s.rnr := At(s, s.rnr).(rasr := rasr)])
  }

  /** Word `i` of the window that starts at RBAR: RBAR, RASR and their three aliases.  An alias acts
      as the register it stands for. */
  function WriteAlias(s: MpuState, i: nat, w: bv32): MpuState
    requires i < 8
  {
    if i % 2 == 0 then WriteRbar(s, w) else WriteRasr(s, w)
  }

  /** The layout of RBAR: the address in bits 31:5, VALID in bit 4, the region in bits 3:0. */
  function RbarOf(address: bv32, valid: bool, region: bv4): bv32 {
    (address & 0xFFFF_FFE0) | (if valid then 0x10 else 0x0) | (region as bv32)
  }

  lemma SelectsByLayout(address: bv32, valid: bool, region: bv4)
    ensures Selects(RbarOf(address, valid, region)) == valid
  {
  }

  lemma RegionByLayout(address: bv32, valid: bool, region: bv4)
    ensures RegionField(RbarOf(address, valid, region)) == region as nat
  {
    assert RbarOf(address, valid, region) & 0xF == region as bv32;
  }

  lemma AddressByLayout(address: bv32, valid: bool, region: bv4)
    ensures AddressField(RbarOf(address, valid, region)) == address & 0xFFFF_FFE0
  {
  }

  /** A row sets the address and RASR of the region it names, or without VALID of the one RNR names; RNR ends at
      that region, and the other regions keep their contents. */
  lemma SetRowByLayout(s: MpuState, address: bv32, valid: bool, region: bv4, rasr: bv32, j: nat)
    ensures var t := SetRow(s, Row(RbarOf(address, valid, region), rasr));
            var k := if valid then region as nat else s.rnr;
            && t.rnr == k
            && At(t, j) == if j == k then Region(address & 0xFFFF_FFE0, rasr) else At(s, j)
  {
    hide Selects, RegionField, RbarOf, AddressField;
    SelectsByLayout(address, valid, region);
    RegionByLayout(address, valid, region);
    AddressByLayout(address, valid, region);
  }

  // ---------- the simple form: one row at a time ----------

  function SetRow(s: MpuState, row: Row): MpuState {
    WriteRasr(WriteRbar(s, row.rbar), row.rasr)
  }

  /** Rows set in table order. */
  function SetRows(s: MpuState, rows: seq<Row>): MpuState
    decreases |rows|
  {
    if rows == [] then s else SetRow(SetRows(s, rows[..|rows| - 1]), rows[|rows| - 1])
  }

  // ---------- the fast form: words through the window ----------

  /** The words of the table as they lie in memory. */
  function TableWords(rows: seq<Row>): (words: seq<bv32>)
    ensures |words| == 2 * |rows|
  {
    seq(2 * |rows|, i requires 0 <= i < 2 * |rows| => if i % 2 == 0 then rows[i / 2].rbar else rows[i / 2].rasr)
  }

  /** Words 0, 1, ... written to the window in order. */
  function WriteWords(s: MpuState, words: seq<bv32>): MpuState
    requires |words| <= 8
    decreases |words|
  {
    if words == [] then s
    else WriteAlias(WriteWords(s, words[..|words| - 1]), |words| - 1, words[|words| - 1])
  }

  /** Within one window, pairs of words are rows. */
  lemma {:induction false} WordsAreRows(s: MpuState, rows: seq<Row>)
    requires |rows| <= RALIASES
    ensures WriteWords(s, TableWords(rows)) == SetRows(s, rows)
    decreases |rows|
  {
    hide WriteRbar, WriteRasr;
    if rows != [] {
      var n := |rows| - 1;
      var words := TableWords(rows);
      WordsAreRows(s, rows[..n]);
      assert words[..2 * n + 1][..2 * n] == TableWords(rows[..n]);
      assert words[..2 * n + 1] == words[..|words| - 1];
      assert WriteWords(s, words[..2 * n + 1]) == WriteRbar(SetRows(s, rows[..n]), rows[n].rbar);
    }
  }

  /** Loading one table after another is loading their concatenation. */
  lemma {:induction false} SetRowsConcat(s: MpuState, a: seq<Row>, b: seq<Row>)
    ensures SetRows(s, a + b) == SetRows(SetRows(s, a), b)
    decreases |b|
  {
    hide SetRow;
    if b == [] {
      assert a + b == a;
    } else {
      var n := |b| - 1;
      assert (a + b)[..|a + b| - 1] == a + b[..n];
      SetRowsConcat(s, a, b[..n]);
    }
  }

  class MpuUnit {
    var rnr: nat
    var regions: map<nat, Region>

    ghost function State(): MpuState
      reads this
    {
      MpuState(rnr, regions)
    }

    /** A store to the window at RBAR; there is no word past the eighth. */
    method StoreWord(i: nat, w: bv32)
      requires i < 8
      modifies this
      ensures State() == WriteAlias(old(State()), i, w)
    {
      hide Selects, RegionField, AddressField;
      if i % 2 == 0 {
        rnr := if Selects(w) then RegionField(w) else rnr;
        var r := if rnr in regions then regions[rnr] else RESET_REGION;
        regions := regions[rnr := r.(base := AddressField(w))];
      } else {
        var r := if rnr in regions then regions[rnr] else RESET_REGION;
        regions := regions[rnr := r.(rasr := w)];
      }
    }

    /** `ARM_MPU_SetRegion` */
    method SetRegion(rbar: bv32, rasr: bv32)
      modifies this
      ensures State() == SetRow(old(State()), Row(rbar, rasr))
    {
      hide WriteRbar, WriteRasr;
      StoreWord(0, rbar);
      StoreWord(1, rasr);
    }

    /** `ARM_MPU_SetRegionEx` */
    method SetRegionEx(number: nat, rbar: bv32, rasr: bv32)
      modifies this
      ensures State() == SetRow(old(State()).(rnr := number), Row(rbar, rasr))
    {
      hide WriteRbar, WriteRasr;
      rnr := number;
      StoreWord(0, rbar);
      StoreWord(1, rasr);
    }

    /** `orderedCpy` from memory words `src[from..]` into the window. */
    method OrderedCopy(src: seq<bv32>, from: nat, len: nat)
      requires len <= 8 && from + len <= |src|
      modifies this
      ensures State() == WriteWords(old(State()), src[from..from + len])
    {
      hide WriteAlias;
      var i := 0;
      while i < len
        invariant i <= len
        invariant State() == WriteWords(old(State()), src[from..from + i])
      {
        StoreWord(i, src[from + i]);
        assert src[from..from + i + 1][..i] == src[from..from + i];
        i := i + 1;
      }
    }

    /** `ARM_MPU_Load`: whatever the table and the count, the copies of up to four rows leave RNR and
        every region as setting row after row would. */
    method Load(table: seq<Row>, count: nat)
      requires count <= |table|
      modifies this
      ensures State() == SetRows(old(State()), table[..count])
    {
      hide WriteWords, SetRows;
      ghost var start := State();
      EmptyRows(start);
      var memory := TableWords(table);
      var row: nat, cnt: nat := 0, count;
      while cnt > RALIASES
        invariant row + cnt == count
        invariant State() == SetRows(start, table[..row])
      {
        CopyIsRows(State(), table, row, RALIASES);
        OrderedCopy(memory, 2 * row, 2 * RALIASES);
        SetRowsConcat(start, table[..row], table[row..row + RALIASES]);
        assert table[..row] + table[row..row + RALIASES] == table[..row + RALIASES];
        row := row + RALIASES;
        cnt := cnt - RALIASES;
      }
      CopyIsRows(State(), table, row, cnt);
      OrderedCopy(memory, 2 * row, 2 * cnt);
      SetRowsConcat(start, table[..row], table[row..row + cnt]);
      assert table[..row] + table[row..row + cnt] == table[..count];
    }
  }

  lemma EmptyRows(s: MpuState)
    ensures SetRows(s, []) == s
  {
  }

  /** Copying the words of rows `row..row + n` sets these rows. */
  lemma CopyIsRows(s: MpuState, table: seq<Row>, row: nat, n: nat)
    requires row + n <= |table| && n <= RALIASES
    ensures WriteWords(s, TableWords(table)[2 * row..2 * row + 2 * n]) == SetRows(s, table[row..row + n])
  {
    hide WriteWords, SetRows;
    WordsAreRows(s, table[row..row + n]);
    assert TableWords(table)[2 * row..2 * row + 2 * n] == TableWords(table[row..row + n]);
  }

  // ---------- what a load means ----------

  /** The `ARM_MPU_RBAR` macro. */
  function RbarValue(region: bv32, base: bv32): bv32 {
    (base & 0xFFFF_FFE0) | (region & 0xF) | 0x10
  }

  lemma RbarSelects(region: bv32, base: bv32)
    ensures Selects(RbarValue(region, base))
  {
  }

  lemma RbarRegion(region: bv32, base: bv32)
    ensures RegionField(RbarValue(region, base)) == (region & 0xF) as nat
  {
  }

  lemma RbarAddress(region: bv32, base: bv32)
    ensures AddressField(RbarValue(region, base)) == base & 0xFFFF_FFE0
  {
  }

  /** Every row names its own region. */
  ghost predicate AllSelect(rows: seq<Row>) {
    forall i | 0 <= i < |rows| :: Selects(rows[i].rbar)
  }

  function RegionOf(row: Row): nat { RegionField(row.rbar) }

  function Contents(row: Row): Region { Region(AddressField(row.rbar), row.rasr) }

  /** The last row that names region `k`, or -1. */
  function LastRow(rows: seq<Row>, k: nat): (r: int)
    ensures -1 <= r < |rows|
    ensures r >= 0 ==> RegionOf(rows[r]) == k && forall i | r < i < |rows| :: RegionOf(rows[i]) != k
    ensures r == -1 ==> forall i | 0 <= i < |rows| :: RegionOf(rows[i]) != k
    decreases |rows|
  {
    if rows == [] then -1
    else if RegionOf(rows[|rows| - 1]) == k then |rows| - 1
    else LastRow(rows[..|rows| - 1], k)
  }

  /** A row that names its region replaces that region whole and leaves the others alone. */
  lemma SetRowMeaning(s: MpuState, row: Row, k: nat)
    requires Selects(row.rbar)
    ensures At(SetRow(s, row), k) == if RegionOf(row) == k then Contents(row) else At(s, k)
    ensures SetRow(s, row).rnr == RegionOf(row)
  {
  }

  /** Loading a table of such rows: the last row of each region wins, a region without a row keeps
      its contents, and RNR ends at the last row's region. */
  lemma {:induction false} LastRowWins(s: MpuState, rows: seq<Row>, k: nat)
    requires AllSelect(rows)
    ensures var r := LastRow(rows, k);
            At(SetRows(s, rows), k) == if r >= 0 then Contents(rows[r]) else At(s, k)
    ensures SetRows(s, rows).rnr == if rows == [] then s.rnr else RegionOf(rows[|rows| - 1])
    decreases |rows|
  {
    hide SetRow, Selects, RegionOf, Contents, At;
    if rows != [] {
      var front := rows[..|rows| - 1];
      LastRowWins(s, front, k);
      SetRowMeaning(SetRows(s, front), rows[|rows| - 1], k);
    }
  }

  ghost predicate DistinctRegions(rows: seq<Row>) {
    forall i, j | 0 <= i < j < |rows| :: RegionOf(rows[i]) != RegionOf(rows[j])
  }

  /** In a table without two rows for one region, the order of the rows does not matter. */
  lemma OrderIsIrrelevant(s: MpuState, a: seq<Row>, b: seq<Row>, k: nat)
    requires AllSelect(a) && AllSelect(b) && DistinctRegions(a) && DistinctRegions(b)
    requires multiset(a) == multiset(b)
    ensures At(SetRows(s, a), k) == At(SetRows(s, b), k)
  {
    hide SetRows, Selects, RegionOf, Contents, At;
    LastRowWins(s, a, k);
    LastRowWins(s, b, k);
    LastRowCarriesOver(a, b, k);
    LastRowCarriesOver(b, a, k);
  }

  /** A table with the same rows has the same row for region `k`. */
  lemma LastRowCarriesOver(a: seq<Row>, b: seq<Row>, k: nat)
    requires DistinctRegions(b) && multiset(a) == multiset(b)
    ensures var i, j := LastRow(a, k), LastRow(b, k); i >= 0 ==> j >= 0 && a[i] == b[j]
  {
    hide RegionOf;
    var i := LastRow(a, k);
    if i >= 0 {
      assert a[i] in multiset(b);
      var m :| 0 <= m < |b| && b[m] == a[i];
      assert m == LastRow(b, k);
    }
  }

  /** `ARM_MPU_SetRegionEx` reaches the region it is given exactly when the RBAR value does not select
      another; otherwise that other region is written and the given one keeps its contents. */
  lemma SetRegionExReaches(s: MpuState, number: nat, row: Row)
    ensures var t := SetRow(s.(rnr := number), row);
            if !Selects(row.rbar) || RegionOf(row) == number then At(t, number) == Contents(row)
            else At(t, number) == At(s, number) && At(t, RegionOf(row)) == Contents(row)
  {
  }
}
