/**
 * The register listing of `writeRegDict`: rows whose register carries the omit flag are
 * marked '...', and a run of marked rows is then compacted into one summary row that says
 * how many registers were left out.
 */
module RegListing {
  import opened Numerals

  /** One listing row: address, name, R/W, Acacia address, Acacia and SPI bit ranges, help. */
  datatype RegRow = RegRow(
    addr: string,
    name: string,
    rw: string,
    acaciaAddr: string,
    acaciaMask: string,
    spiMask: string,
    help: string)

  /** The marker that the omit flags write into a row. */
  const Dots: string := "..."

  /** A row is omitted when its name column holds the marker. */
  predicate IsOmitted(r: RegRow) {
    r.name == Dots
  }

  /**
   * The omit flags of a register applied to its row: bit 0 hides address and name, bit 1
   * hides the help text.
   */
  function MarkOmitted(r: RegRow, omit: nat): (m: RegRow)
    ensures IsOmitted(m) <==> omit % 2 == 1 || IsOmitted(r)
    ensures m.addr == (if omit % 2 == 1 then Dots else r.addr)
    ensures m.name == (if omit % 2 == 1 then Dots else r.name)
    ensures m.help == (if omit / 2 % 2 == 1 then Dots else r.help)
    ensures m.rw == r.rw && m.acaciaAddr == r.acaciaAddr
    ensures m.acaciaMask == r.acaciaMask && m.spiMask == r.spiMask
  {
    var r1 := if omit % 2 == 1 then r.(addr := Dots, name := Dots) else r;
    if omit / 2 % 2 == 1 then r1.(help := Dots) else r1
  }

  /** The row that stands for a run of count omitted registers. */
  function Summary(count: nat): (r: RegRow)
    ensures !IsOmitted(r)
    ensures r.addr == "" && r.help == ""
  {
    var r := RegRow("", "... (" + Decimal(count) + " Registers Omitted) ...", "", "", "", "", "");
    assert |r.name| > |Dots|;
    r
  }

  /** An entry of the compacted listing: a row kept as it is, or a run of omitted rows. */
  datatype Listed = Kept(row: RegRow) | Gap(count: nat)

  /** The row an entry is printed as. */
  function Rendered(l: Listed): RegRow {
    match l
    case Kept(r) => r
    case Gap(n) => Summary(n)
  }

  /** The rows a compacted listing is printed as: one row per entry, in order. */
  function Render(ls: seq<Listed>): (rows: seq<RegRow>)
    ensures |rows| == |ls|
    ensures forall k :: 0 <= k < |ls| ==> rows[k] == Rendered(ls[k])
  {
    if ls == [] then [] else [Rendered(ls[0])] + Render(ls[1..])
  }

  /**
   * The compaction of rows when run omitted rows come just before them and have not been
   * summarised yet: an omitted row lengthens the run; a row that is not omitted is kept,
   * after a gap for the run when there is one; a run still open at the end leaves nothing.
   */
  function CompactFrom(rows: seq<RegRow>, run: nat): seq<Listed>
    decreases |rows|
  {
    if rows == [] then []
    else if IsOmitted(rows[0]) then CompactFrom(rows[1..], run + 1)
    else if run == 0 then [Kept(rows[0])] + CompactFrom(rows[1..], 0)
    else [Gap(run), Kept(rows[0])] + CompactFrom(rows[1..], 0)
  }

  /** The compacted listing. */
  function Compact(rows: seq<RegRow>): seq<Listed> {
    CompactFrom(rows, 0)
  }

  /** The rows that are not omitted, in order. */
  function Named(rows: seq<RegRow>): (named: seq<RegRow>)
    ensures |named| <= |rows|
  {
    if rows == [] then []
    else if IsOmitted(rows[0]) then Named(rows[1..])
    else [rows[0]] + Named(rows[1..])
  }

  /** The kept rows of a compacted listing, in order. */
  function KeptRows(ls: seq<Listed>): seq<RegRow> {
    if ls == [] then []
    else if ls[0].Kept? then [ls[0].row] + KeptRows(ls[1..])
    else KeptRows(ls[1..])
  }

  /** The number of registers the gaps of a compacted listing account for. */
  function GapTotal(ls: seq<Listed>): nat {
    if ls == [] then 0
    else if ls[0].Gap? then ls[0].count + GapTotal(ls[1..])
    else GapTotal(ls[1..])
  }

  /** The registers a compacted listing accounts for: its kept rows and its gap counts. */
  function Accounted(ls: seq<Listed>): nat {
    |KeptRows(ls)| + GapTotal(ls)
  }

  /** A kept row accounts for one register, a gap for its count. */
  lemma AccountedCons(l: Listed, ls: seq<Listed>)
    ensures KeptRows([l] + ls) == (if l.Kept? then [l.row] else []) + KeptRows(ls)
    ensures Accounted([l] + ls) == (if l.Kept? then 1 else l.count) + Accounted(ls)
  {
    assert ([l] + ls)[0] == l && ([l] + ls)[1..] == ls;
  }

  // ---------------------------------------------------------------------------------------
  // The compaction loop

  /** Printing a listing piece by piece. */
  lemma RenderAppend(a: seq<Listed>, b: seq<Listed>)
    ensures Render(a + b) == Render(a) + Render(b)
  {
    var l, r := Render(a + b), Render(a) + Render(b);
    forall k | 0 <= k < |a + b| ensures l[k] == r[k] {
      if k < |a| {
        assert (a + b)[k] == a[k];
      } else {
        assert (a + b)[k] == b[k - |a|];
      }
    }
  }

  lemma AppendAssoc(a: seq<RegRow>, b: seq<RegRow>, c: seq<RegRow>)
    ensures (a + b) + c == a + (b + c)
  {
  }

  /** What the first of the remaining rows prints, given the run pending before it. */
  function Printed(r: RegRow, run: nat): seq<RegRow> {
    if IsOmitted(r) then [] else if run == 0 then [r] else [Summary(run), r]
  }

  /** The run pending after row r. */
  function RunAfter(r: RegRow, run: nat): nat {
    if IsOmitted(r) then run + 1 else 0
  }

  /** Compacting row by row: the first row prints what Printed says, then the rest follows. */
  lemma CompactStep(rows: seq<RegRow>, run: nat)
    requires rows != []
    ensures Render(CompactFrom(rows, run)) ==
      Printed(rows[0], run) + Render(CompactFrom(rows[1..], RunAfter(rows[0], run)))
  {
    var rest := CompactFrom(rows[1..], 0);
    if !IsOmitted(rows[0]) {
      if run == 0 {
        RenderAppend([Kept(rows[0])], rest);
      } else {
        RenderAppend([Gap(run), Kept(rows[0])], rest);
      }
    }
  }

  /** The same step for the compaction that flushes a trailing run. */
  lemma CompactAllStep(rows: seq<RegRow>, run: nat)
    requires rows != []
    ensures Render(CompactAllFrom(rows, run)) ==
      Printed(rows[0], run) + Render(CompactAllFrom(rows[1..], RunAfter(rows[0], run)))
  {
    var rest := CompactAllFrom(rows[1..], 0);
    if !IsOmitted(rows[0]) {
      if run == 0 {
        RenderAppend([Kept(rows[0])], rest);
      } else {
        RenderAppend([Gap(run), Kept(rows[0])], rest);
      }
    }
  }

  /**
   * The loop of lines 160-177: a purge flag and a counter walk the rows once. The counter
   * restarts at the first omitted row of a run and counts every row after it up to and
   * including the row that ends the run, so while purging count + 1 rows are pending.
   */
  method CompactRows(rows: seq<RegRow>) returns (out: seq<RegRow>)
    ensures out == Render(Compact(rows))
  {
    var purge := false;
    var count: nat := 0;
    out := [];
    assert rows[0..] == rows;
    for i := 0 to |rows|
      invariant out + Render(CompactFrom(rows[i..], if purge then count + 1 else 0)) ==
        Render(Compact(rows))
    {
      var line := rows[i];
      ghost var run: nat := if purge then count + 1 else 0;
      assert rows[i..][0] == line && rows[i..][1..] == rows[i + 1..];
      CompactStep(rows[i..], run);
      ghost var before := out;
      if purge {
        count := count + 1;
        if line.name != Dots {
          purge := false;
          out := out + [Summary(count), line];
          assert Printed(line, run) == [Summary(count), line];
        }
      } else {
        if line.name == Dots {
          count := 0;
          purge := true;
        } else {
          out := out + [line];
          assert Printed(line, run) == [line];
        }
      }
      assert out == before + Printed(line, run);
      assert (if purge then count + 1 else 0) == RunAfter(line, run);
      ghost var rest := Render(CompactFrom(rows[i + 1..], RunAfter(line, run)));
      AppendAssoc(before, Printed(line, run), rest);
    }
  }

  // ---------------------------------------------------------------------------------------
  // The compaction, run by run

  /** A leading run of m omitted rows only adds m to the pending run. */
  lemma {:induction false} SkipRun(rows: seq<RegRow>, run: nat, m: nat)
    requires m <= |rows|
    requires forall k :: 0 <= k < m ==> IsOmitted(rows[k])
    ensures CompactFrom(rows, run) == CompactFrom(rows[m..], run + m)
  {
    if m > 0 {
      SkipRun(rows[1..], run + 1, m - 1);
      assert rows[1..][m - 1..] == rows[m..];
    }
  }

  /**
   * A run of m omitted rows (m may be 0) closed by a kept row is compacted to a gap of m
   * (no gap when m is 0) and that row, and the compaction goes on after it.
   */
  lemma {:induction false} CompactRunClosed(rows: seq<RegRow>, m: nat)
    requires m < |rows|
    requires forall k :: 0 <= k < m ==> IsOmitted(rows[k])
    requires !IsOmitted(rows[m])
    ensures Compact(rows) ==
      (if m == 0 then [] else [Gap(m)]) + [Kept(rows[m])] + Compact(rows[m + 1..])
  {
    SkipRun(rows, 0, m);
    assert rows[m..][0] == rows[m] && rows[m..][1..] == rows[m + 1..];
  }

  /** A run of omitted rows that reaches the end of the listing leaves nothing behind. */
  lemma {:induction false} CompactRunTrailing(rows: seq<RegRow>, run: nat)
    requires forall k :: 0 <= k < |rows| ==> IsOmitted(rows[k])
    ensures CompactFrom(rows, run) == []
  {
    SkipRun(rows, run, |rows|);
  }

  /** After a kept row the compaction starts afresh: compacting splits there. */
  lemma {:induction false} CompactAfterKept(p: seq<RegRow>, q: seq<RegRow>, run: nat)
    requires p != [] && !IsOmitted(p[|p| - 1])
    ensures CompactFrom(p + q, run) == CompactFrom(p, run) + CompactFrom(q, 0)
    decreases |p|
  {
    assert (p + q)[0] == p[0] && (p + q)[1..] == p[1..] + q;
    if |p| == 1 {
      assert p[1..] + q == q;
    } else if IsOmitted(p[0]) {
      CompactAfterKept(p[1..], q, run + 1);
    } else {
      CompactAfterKept(p[1..], q, 0);
    }
  }

  // ---------------------------------------------------------------------------------------
  // What the compaction keeps

  /** The kept rows of the compacted listing are exactly the named rows, in their order. */
  lemma {:induction false} CompactKeepsNamed(rows: seq<RegRow>, run: nat)
    ensures KeptRows(CompactFrom(rows, run)) == Named(rows)
    decreases |rows|
  {
    if rows != [] {
      var rest := CompactFrom(rows[1..], 0);
      CompactKeepsNamed(rows[1..], if IsOmitted(rows[0]) then run + 1 else 0);
      if !IsOmitted(rows[0]) {
        AccountedCons(Kept(rows[0]), rest);
        AccountedCons(Gap(run), [Kept(rows[0])] + rest);
        assert [Gap(run), Kept(rows[0])] + rest == [Gap(run)] + ([Kept(rows[0])] + rest);
      }
    }
  }

  /** Every kept entry of the compacted listing holds a row that is not omitted. */
  lemma {:induction false} CompactKeepsOnlyNamed(rows: seq<RegRow>, run: nat)
    ensures forall k :: 0 <= k < |CompactFrom(rows, run)| && CompactFrom(rows, run)[k].Kept? ==>
      !IsOmitted(CompactFrom(rows, run)[k].row)
    decreases |rows|
  {
    if rows != [] {
      CompactKeepsOnlyNamed(rows[1..], if IsOmitted(rows[0]) then run + 1 else 0);
    }
  }

  /** No printed row of the compacted listing is an omitted row. */
  lemma {:induction false} CompactHidesOmitted(rows: seq<RegRow>)
    ensures forall k :: 0 <= k < |Render(Compact(rows))| ==> !IsOmitted(Render(Compact(rows))[k])
  {
    CompactKeepsOnlyNamed(rows, 0);
  }

  /** A listing without omitted rows is printed as it is. */
  lemma {:induction false} CompactIdentity(rows: seq<RegRow>)
    requires forall k :: 0 <= k < |rows| ==> !IsOmitted(rows[k])
    ensures Render(Compact(rows)) == rows
    decreases |rows|
  {
    if rows != [] {
      CompactIdentity(rows[1..]);
      RenderAppend([Kept(rows[0])], Compact(rows[1..]));
      assert [rows[0]] + rows[1..] == rows;
    }
  }

  /** Compacting a compacted listing changes nothing. */
  lemma {:induction false} CompactIdempotent(rows: seq<RegRow>)
    ensures Render(Compact(Render(Compact(rows)))) == Render(Compact(rows))
  {
    CompactHidesOmitted(rows);
    CompactIdentity(Render(Compact(rows)));
  }

  /** The compacted listing is never longer than the listing. */
  lemma {:induction false} CompactShorter(rows: seq<RegRow>, run: nat)
    ensures |CompactFrom(rows, run)| <= |rows| + (if run == 0 then 0 else 1)
    decreases |rows|
  {
    if rows != [] {
      CompactShorter(rows[1..], if IsOmitted(rows[0]) then run + 1 else 0);
    }
  }

  // ---------------------------------------------------------------------------------------
  // Accounting for every register

  /**
   * When the listing does not end in an omitted row, the summaries account for every
   * omitted register: kept rows and gap counts add up to the rows of the listing (and the
   * run pending before it).
   */
  lemma {:induction false} CompactAccounts(rows: seq<RegRow>, run: nat)
    requires rows == [] ==> run == 0
    requires rows != [] ==> !IsOmitted(rows[|rows| - 1])
    ensures Accounted(CompactFrom(rows, run)) == |rows| + run
    decreases |rows|
  {
    if rows != [] {
      var rest := CompactFrom(rows[1..], 0);
      CompactAccounts(rows[1..], if IsOmitted(rows[0]) then run + 1 else 0);
      if !IsOmitted(rows[0]) {
        AccountedCons(Kept(rows[0]), rest);
        AccountedCons(Gap(run), [Kept(rows[0])] + rest);
        assert [Gap(run), Kept(rows[0])] + rest == [Gap(run)] + ([Kept(rows[0])] + rest);
      }
    }
  }

  /**
   * A listing that ends in a run of omitted registers loses that run: the compaction
   * accounts only for the registers before it, and no summary row counts the rest.
   */
  lemma {:induction false} TrailingRunUnaccounted(p: seq<RegRow>, tail: seq<RegRow>)
    requires p != [] ==> !IsOmitted(p[|p| - 1])
    requires tail != [] && forall k :: 0 <= k < |tail| ==> IsOmitted(tail[k])
    ensures Accounted(Compact(p + tail)) == |p| < |p + tail|
  {
    CompactRunTrailing(tail, 0);
    if p == [] {
      assert p + tail == tail;
    } else {
      CompactAfterKept(p, tail, 0);
      assert Compact(p + tail) == Compact(p);
    }
    CompactAccounts(p, 0);
  }

  /** The compaction with a gap for a run still pending at the end of the listing. */
  function CompactAllFrom(rows: seq<RegRow>, run: nat): seq<Listed>
    decreases |rows|
  {
    if rows == [] then (if run == 0 then [] else [Gap(run)])
    else if IsOmitted(rows[0]) then CompactAllFrom(rows[1..], run + 1)
    else if run == 0 then [Kept(rows[0])] + CompactAllFrom(rows[1..], 0)
    else [Gap(run), Kept(rows[0])] + CompactAllFrom(rows[1..], 0)
  }

  function CompactAll(rows: seq<RegRow>): seq<Listed> {
    CompactAllFrom(rows, 0)
  }

  /** With a gap for the trailing run, every register of every listing is accounted for. */
  lemma {:induction false} CompactAllAccounts(rows: seq<RegRow>, run: nat)
    ensures Accounted(CompactAllFrom(rows, run)) == |rows| + run
    ensures KeptRows(CompactAllFrom(rows, run)) == Named(rows)
    decreases |rows|
  {
    if rows == [] {
      AccountedCons(Gap(run), []);
      assert [Gap(run)] + [] == [Gap(run)];
    } else {
      var rest := CompactAllFrom(rows[1..], 0);
      CompactAllAccounts(rows[1..], if IsOmitted(rows[0]) then run + 1 else 0);
      if !IsOmitted(rows[0]) {
        AccountedCons(Kept(rows[0]), rest);
        AccountedCons(Gap(run), [Kept(rows[0])] + rest);
        assert [Gap(run), Kept(rows[0])] + rest == [Gap(run)] + ([Kept(rows[0])] + rest);
      }
    }
  }

  /** Where the listing does not end in an omitted row, the two compactions agree. */
  lemma {:induction false} CompactAllAgrees(rows: seq<RegRow>, run: nat)
    requires rows == [] ==> run == 0
    requires rows != [] ==> !IsOmitted(rows[|rows| - 1])
    ensures CompactAllFrom(rows, run) == CompactFrom(rows, run)
    decreases |rows|
  {
    if rows != [] {
      CompactAllAgrees(rows[1..], if IsOmitted(rows[0]) then run + 1 else 0);
    }
  }

  /**
   * The loop of lines 160-177 with the pending run flushed after the last row: a run still
   * open at the end gets its summary row too.
   */
  method CompactAllRows(rows: seq<RegRow>) returns (out: seq<RegRow>)
    ensures out == Render(CompactAll(rows))
  {
    var purge := false;
    var count: nat := 0;
    out := [];
    assert rows[0..] == rows;
    for i := 0 to |rows|
      invariant out + Render(CompactAllFrom(rows[i..], if purge then count + 1 else 0)) ==
        Render(CompactAll(rows))
    {
      var line := rows[i];
      ghost var run: nat := if purge then count + 1 else 0;
      assert rows[i..][0] == line && rows[i..][1..] == rows[i + 1..];
      CompactAllStep(rows[i..], run);
      ghost var before := out;
      if purge {
        count := count + 1;
        if line.name != Dots {
          purge := false;
          out := out + [Summary(count), line];
          assert Printed(line, run) == [Summary(count), line];
        }
      } else {
        if line.name == Dots {
          count := 0;
          purge := true;
        } else {
          out := out + [line];
          assert Printed(line, run) == [line];
        }
      }
      assert out == before + Printed(line, run);
      assert (if purge then count + 1 else 0) == RunAfter(line, run);
      ghost var rest := Render(CompactAllFrom(rows[i + 1..], RunAfter(line, run)));
      AppendAssoc(before, Printed(line, run), rest);
    }
    assert rows[|rows|..] == [];
    if purge {
      out := out + [Summary(count + 1)];
      assert Render(CompactAllFrom([], count + 1)) == [Summary(count + 1)];
    }
  }
}
