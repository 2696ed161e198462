/**
 * Total resident memory from a `ps aux` table (`all_ps_memory_usage`). The
 * table's text is a parameter: running `ps` itself is outside the model.
 * RSS values are naturals in kilobytes; the megabyte total is an exact real.
 */
module PsMemory {
  import opened Wrappers
  import opened Text

  /** Column of the RSS field in each row (USER PID %CPU %MEM VSZ RSS ...). */
  const RssColumn: nat := 5

  /** Scale from kilobytes to megabytes. */
  const KbToMb: real := 1.0 / 1024.0

  /** Why a row could not be read. */
  datatype PsError =
    | MissingRssField(row: String)  // IndexError: fewer than six fields
    | BadRssField(field: String)    // ValueError from float()

  /** The lines of `lines` that are not empty, in order. */
  function NonEmpty(lines: seq<String>): (rows: seq<String>)
    ensures forall k :: 0 <= k < |rows| ==> rows[k] != []
  {
    if lines == [] then []
    else (if lines[0] == [] then [] else [lines[0]]) + NonEmpty(lines[1..])
  }

  /** NonEmpty keeps every non-empty line as often as it occurs, and no
      empty line. */
  lemma {:induction false} NonEmptyKeeps(lines: seq<String>)
    ensures multiset(NonEmpty(lines)) == multiset(lines)[[] := 0]
    decreases |lines|
  {
    if lines != [] {
      NonEmptyKeeps(lines[1..]);
      assert lines == [lines[0]] + lines[1..];
      assert multiset(lines) == multiset{lines[0]} + multiset(lines[1..]);
    }
  }

  /** The process rows: every line after the first (the header), less the
      empty ones. */
  function ProcessLines(out: String): (rows: seq<String>)
    ensures forall k :: 0 <= k < |rows| ==> rows[k] != []
  {
    NonEmpty(Split(out, '\n')[1..])
  }

  /** The process rows are the lines after the first, each non-empty one as
      often as it occurs. */
  lemma ProcessLinesAreRows(out: String)
    ensures multiset(ProcessLines(out)) == multiset(Split(out, '\n')[1..])[[] := 0]
  {
    NonEmptyKeeps(Split(out, '\n')[1..]);
  }

  /** The RSS of one row, in kilobytes. */
  function RowRss(row: String): (r: Result<nat, PsError>)
    ensures r.Ok? <==> |Words(row)| > RssColumn && IsDecimal(Words(row)[RssColumn])
    ensures r.Err? ==> (r.error.MissingRssField? <==> |Words(row)| <= RssColumn)
    ensures r.Ok? ==> ParseNat(Words(row)[RssColumn]) == Some(r.value)
  {
    var fields := Words(row);
    if |fields| <= RssColumn then Err(MissingRssField(row))
    else
      match ParseNat(fields[RssColumn])
      case None => Err(BadRssField(fields[RssColumn]))
      case Some(kb) => Ok(kb)
  }

  /** The RSS of every row in order, or the error of the first row that fails. */
  function RssValues(rows: seq<String>): (r: Result<seq<nat>, PsError>)
    ensures r.Ok? ==> |r.value| == |rows|
  {
    if rows == [] then Ok([])
    else
      match RowRss(rows[0])
      case Err(e) => Err(e)
      case Ok(kb) =>
        match RssValues(rows[1..])
        case Err(e) => Err(e)
        case Ok(rest) => Ok([kb] + rest)
  }

  function Sum(xs: seq<nat>): nat
  {
    if xs == [] then 0 else Sum(xs[..|xs| - 1]) + xs[|xs| - 1]
  }

  /** Total RSS over all process rows, in kilobytes. */
  function TotalKb(out: String): Result<nat, PsError>
  {
    match RssValues(ProcessLines(out))
    case Err(e) => Err(e)
    case Ok(kbs) => Ok(Sum(kbs))
  }

  /** What `all_ps_memory_usage` returns for the table `out`, in megabytes. */
  function UsageMb(out: String): (r: Result<real, PsError>)
    ensures r.Ok? <==> TotalKb(out).Ok?
    ensures r.Ok? ==> r.value >= 0.0 && r.value * 1024.0 == TotalKb(out).value as real
  {
    match TotalKb(out)
    case Err(e) => Err(e)
    case Ok(kb) => Ok(kb as real * KbToMb)
  }

  /** The loop of `all_ps_memory_usage`: converts each row's RSS to megabytes
      and adds it to a running total; the first unreadable row ends it with
      that row's error. */
  method AllPsMemoryUsage(out: String) returns (r: Result<real, PsError>)
    ensures r == UsageMb(out)
  {
    var rows := ProcessLines(out);
    var total: real := 0.0;
    ghost var kbs: seq<nat> := [];
    for i := 0 to |rows|
      invariant RssValues(rows[..i]) == Ok(kbs)
      invariant total == Sum(kbs) as real * KbToMb
    {
      RssValuesAppend(rows[..i], [rows[i]]);
      assert rows[..i + 1] == rows[..i] + [rows[i]];
      var fields := Words(rows[i]);
      if |fields| <= RssColumn {
        r := Err(MissingRssField(rows[i]));
        FirstFailure(rows, i);
        return;
      }
      var parsed := ParseNat(fields[RssColumn]);
      if parsed.None? {
        r := Err(BadRssField(fields[RssColumn]));
        FirstFailure(rows, i);
        return;
      }
      assert RowRss(rows[i]) == Ok(parsed.value);
      RssValuesOne(rows[i]);
      total := total + parsed.value as real * KbToMb;
      assert Sum(kbs + [parsed.value]) == Sum(kbs) + parsed.value;
      kbs := kbs + [parsed.value];
    }
    assert rows[..|rows|] == rows;
    r := Ok(total);
  }

  // ---------------------------------------------------------------------------
  // Lemmas about the row values

  /** Combination of the results for two consecutive blocks of rows. */
  function Concat(ra: Result<seq<nat>, PsError>, rb: Result<seq<nat>, PsError>): Result<seq<nat>, PsError>
  {
    match ra
    case Err(e) => Err(e)
    case Ok(va) =>
      match rb
      case Err(e) => Err(e)
      case Ok(vb) => Ok(va + vb)
  }

  /** A row printed as whitespace-free fields separated by spaces, with the
      decimal form of `kb` in column 5, reads back as `kb`. */
  lemma RowOfPrintedRss(fields: seq<String>, kb: nat)
    requires |fields| > RssColumn
    requires forall k :: 0 <= k < |fields| ==> IsWord(fields[k])
    requires fields[RssColumn] == ShowNat(kb)
    ensures RowRss(Join(fields, ' ')) == Ok(kb)
  {
    WordsJoin(fields);
    ParseShowNat(kb);
  }

  /** Reading two blocks of rows one after the other. */
  lemma {:induction false} RssValuesAppend(a: seq<String>, b: seq<String>)
    ensures RssValues(a + b) == Concat(RssValues(a), RssValues(b))
    decreases |a|
  {
    if a == [] {
      assert a + b == b;
      if RssValues(b).Ok? {
        assert [] + RssValues(b).value == RssValues(b).value;
      }
    } else {
      assert (a + b)[0] == a[0];
      assert (a + b)[1..] == a[1..] + b;
      RssValuesAppend(a[1..], b);
      match RssValues(b)
      case Err(_) =>
      case Ok(vb) =>
        match RssValues(a[1..])
        case Err(_) =>
        case Ok(va) =>
          if RowRss(a[0]).Ok? {
            assert [RowRss(a[0]).value] + (va + vb) == ([RowRss(a[0]).value] + va) + vb;
          }
    }
  }

  lemma RssValuesOne(row: String)
    ensures RowRss(row).Ok? ==> RssValues([row]) == Ok([RowRss(row).value])
    ensures RowRss(row).Err? ==> RssValues([row]) == Err(RowRss(row).error)
  {
    assert [row][0] == row && [row][1..] == [];
    if RowRss(row).Ok? {
      assert [RowRss(row).value] + [] == [RowRss(row).value];
    }
  }

  /** When row `i` is the first that cannot be read, reading all rows fails
      with its error. */
  lemma FirstFailure(rows: seq<String>, i: nat)
    requires i < |rows|
    requires RssValues(rows[..i]).Ok?
    requires RowRss(rows[i]).Err?
    ensures RssValues(rows) == Err(RowRss(rows[i]).error)
  {
    assert rows == rows[..i] + rows[i..];
    assert rows[i..][0] == rows[i];
    RssValuesAppend(rows[..i], rows[i..]);
  }

  /** Reading succeeds exactly when every row can be read; the values are
      then the RSS field of each row, in order. */
  lemma {:induction false} RssValuesOk(rows: seq<String>)
    ensures RssValues(rows).Ok? <==> forall k :: 0 <= k < |rows| ==> RowRss(rows[k]).Ok?
    ensures RssValues(rows).Ok? ==>
      |RssValues(rows).value| == |rows| &&
      forall k :: 0 <= k < |rows| ==>
        |Words(rows[k])| > RssColumn &&
        ParseNat(Words(rows[k])[RssColumn]) == Some(RssValues(rows).value[k])
    decreases |rows|
  {
    if rows != [] {
      RssValuesOk(rows[1..]);
      assert forall k :: 1 <= k < |rows| ==> rows[k] == rows[1..][k - 1];
      if RssValues(rows).Ok? {
        var vs := RssValues(rows).value;
        assert vs == [vs[0]] + RssValues(rows[1..]).value;
      }
    }
  }

  lemma {:induction false} SumAppend(a: seq<nat>, b: seq<nat>)
    ensures Sum(a + b) == Sum(a) + Sum(b)
    decreases |b|
  {
    if b == [] {
      assert a + b == a;
    } else {
      assert (a + b)[..|a + b| - 1] == a + b[..|b| - 1];
      SumAppend(a, b[..|b| - 1]);
    }
  }

  /** Reading a block with one more row `x` at its front. */
  lemma RssValuesCons(x: String, rest: seq<String>)
    ensures RssValues([x] + rest).Ok? <==> RowRss(x).Ok? && RssValues(rest).Ok?
    ensures RssValues([x] + rest).Ok? ==>
      Sum(RssValues([x] + rest).value) == RowRss(x).value + Sum(RssValues(rest).value)
  {
    assert ([x] + rest)[0] == x && ([x] + rest)[1..] == rest;
    if RssValues([x] + rest).Ok? {
      var kx := RowRss(x).value;
      SumAppend([kx], RssValues(rest).value);
      assert Sum([kx]) == kx by { assert [kx][..0] == []; }
    }
  }

  /** Reading a block with one more row `x` between `b1` and `b2`. */
  lemma RssValuesInsert(b1: seq<String>, x: String, b2: seq<String>)
    ensures RssValues(b1 + [x] + b2).Ok? <==> RowRss(x).Ok? && RssValues(b1 + b2).Ok?
    ensures RssValues(b1 + [x] + b2).Ok? ==>
      Sum(RssValues(b1 + [x] + b2).value) == RowRss(x).value + Sum(RssValues(b1 + b2).value)
  {
    assert b1 + [x] + b2 == b1 + ([x] + b2);
    RssValuesAppend(b1, [x] + b2);
    RssValuesAppend(b1, b2);
    RssValuesCons(x, b2);
    if RssValues(b1 + [x] + b2).Ok? {
      var v1, v2 := RssValues(b1).value, RssValues(b2).value;
      SumAppend(v1, RssValues([x] + b2).value);
      SumAppend(v1, v2);
    }
  }

  /** Taking one occurrence of an element out of two equal multisets. */
  lemma MultisetRemove(a: seq<String>, b: seq<String>, j: nat)
    requires multiset(a) == multiset(b)
    requires a != [] && j < |b| && b[j] == a[0]
    ensures multiset(a[1..]) == multiset(b[..j] + b[j + 1..])
  {
    var x := a[0];
    assert a == [x] + a[1..];
    assert multiset(a) == multiset{x} + multiset(a[1..]);
    assert multiset(b) == multiset(b[..j]) + multiset{x} + multiset(b[j + 1..]) by {
      assert b == b[..j] + ([x] + b[j + 1..]);
    }
    assert multiset(b[..j] + b[j + 1..]) == multiset(b[..j]) + multiset(b[j + 1..]);
    assert multiset(a[1..]) == multiset(a) - multiset{x};
    assert multiset(b[..j] + b[j + 1..]) == multiset(b) - multiset{x};
  }

  /** Reordering the rows changes neither whether the table can be read nor
      its total. */
  lemma {:induction false} RssValuesPermutation(a: seq<String>, b: seq<String>)
    requires multiset(a) == multiset(b)
    ensures RssValues(a).Ok? <==> RssValues(b).Ok?
    ensures RssValues(a).Ok? ==> Sum(RssValues(a).value) == Sum(RssValues(b).value)
    decreases |a|
  {
    if a == [] {
      assert |b| == |multiset(b)| == 0;
    } else {
      var x := a[0];
      assert x in multiset(b);
      var j :| 0 <= j < |b| && b[j] == x;
      var b1, b2 := b[..j], b[j + 1..];
      MultisetRemove(a, b, j);
      RssValuesPermutation(a[1..], b1 + b2);
      assert a == [x] + a[1..];
      RssValuesCons(x, a[1..]);
      assert b == b1 + [x] + b2;
      RssValuesInsert(b1, x, b2);
    }
  }

  // ---------------------------------------------------------------------------
  // Lemmas about the table text

  lemma {:induction false} NonEmptyAppend(a: seq<String>, b: seq<String>)
    ensures NonEmpty(a + b) == NonEmpty(a) + NonEmpty(b)
    decreases |a|
  {
    if a == [] {
      assert a + b == b;
    } else {
      assert (a + b)[0] == a[0];
      assert (a + b)[1..] == a[1..] + b;
      NonEmptyAppend(a[1..], b);
    }
  }

  /** The first line never contributes: the rows are the non-empty lines of
      what follows it, whatever it says. */
  lemma HeaderIgnored(header: String, body: String)
    requires '\n' !in header
    ensures ProcessLines(header + "\n" + body) == NonEmpty(Split(body, '\n'))
  {
    SplitConcat(header, body, '\n');
    SplitNoSeparator(header, '\n');
    assert (Split(header, '\n') + Split(body, '\n'))[1..] == Split(body, '\n');
  }

  /** The rows of a table cut at one of its line breaks after the header. */
  lemma ProcessLinesAt(before: String, after: String)
    ensures ProcessLines(before + ['\n'] + after) ==
      NonEmpty(Split(before, '\n')[1..]) + NonEmpty(Split(after, '\n'))
  {
    var sa, sb := Split(before, '\n'), Split(after, '\n');
    SplitConcat(before, after, '\n');
    assert (sa + sb)[1..] == sa[1..] + sb;
    NonEmptyAppend(sa[1..], sb);
  }

  /** An extra empty line anywhere after the header changes nothing. */
  lemma BlankLineIgnored(before: String, after: String)
    ensures ProcessLines(before + "\n\n" + after) == ProcessLines(before + "\n" + after)
  {
    assert before + "\n\n" + after == before + ['\n'] + (['\n'] + after);
    assert before + "\n" + after == before + ['\n'] + after;
    ProcessLinesAt(before, ['\n'] + after);
    ProcessLinesAt(before, after);
    SplitCons('\n', after, '\n');
    var sb := Split(after, '\n');
    assert ([[]] + sb)[0] == [] && ([[]] + sb)[1..] == sb;
  }

  lemma {:induction false} NonEmptyOfBlanks(lines: seq<String>)
    requires forall k :: 0 <= k < |lines| ==> lines[k] == []
    ensures NonEmpty(lines) == []
    decreases |lines|
  {
    if lines != [] {
      NonEmptyOfBlanks(lines[1..]);
    }
  }

  /** A table with no process rows (only a header, possibly followed by empty
      lines) totals zero. */
  lemma NoRowsTotalZero(out: String)
    requires forall k :: 1 <= k < |Split(out, '\n')| ==> Split(out, '\n')[k] == []
    ensures UsageMb(out) == Ok(0.0)
  {
    var lines := Split(out, '\n')[1..];
    assert forall k :: 0 <= k < |lines| ==> lines[k] == Split(out, '\n')[k + 1];
    NonEmptyOfBlanks(lines);
  }

  /** The total is exactly the sum of the RSS fields (column 5) of the rows,
      scaled by 1/1024, and it fails exactly when some row cannot be read. */
  lemma TotalIsRssSum(out: String)
    ensures var rows := ProcessLines(out);
      && (UsageMb(out).Ok? <==> forall k :: 0 <= k < |rows| ==> RowRss(rows[k]).Ok?)
      && (UsageMb(out).Ok? ==>
            exists kbs: seq<nat> ::
              && |kbs| == |rows|
              && (forall k :: 0 <= k < |rows| ==> ParseNat(Words(rows[k])[RssColumn]) == Some(kbs[k]))
              && UsageMb(out).value == Sum(kbs) as real * KbToMb)
  {
    RssValuesOk(ProcessLines(out));
  }

  /** A non-empty row with fewer than six fields is an error, not a skipped
      row: reading fails, with that row's error when the rows before it are
      readable. */
  lemma ShortRowIsError(out: String, k: nat)
    requires k < |ProcessLines(out)|
    requires |Words(ProcessLines(out)[k])| <= RssColumn
    ensures UsageMb(out).Err?
    ensures (forall j :: 0 <= j < k ==> RowRss(ProcessLines(out)[j]).Ok?) ==>
      UsageMb(out) == Err(MissingRssField(ProcessLines(out)[k]))
  {
    var rows := ProcessLines(out);
    RssValuesOk(rows);
    if forall j :: 0 <= j < k ==> RowRss(rows[j]).Ok? {
      RssValuesOk(rows[..k]);
      FirstFailure(rows, k);
    }
  }

  /** The total does not depend on the order of the rows. */
  lemma TotalOrderIndependent(out1: String, out2: String)
    requires multiset(ProcessLines(out1)) == multiset(ProcessLines(out2))
    ensures UsageMb(out1).Ok? <==> UsageMb(out2).Ok?
    ensures UsageMb(out1).Ok? ==> UsageMb(out1) == UsageMb(out2)
  {
    var rows1, rows2 := ProcessLines(out1), ProcessLines(out2);
    RssValuesPermutation(rows1, rows2);
    UsageMbOfRows(out1);
    UsageMbOfRows(out2);
  }

  /** The megabyte result in terms of the rows' values. */
  lemma UsageMbOfRows(out: String)
    ensures UsageMb(out).Ok? <==> RssValues(ProcessLines(out)).Ok?
    ensures UsageMb(out).Ok? ==>
      UsageMb(out) == Ok(Sum(RssValues(ProcessLines(out)).value) as real * KbToMb)
  {
  }
}
