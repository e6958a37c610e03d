/**
 * The streaming copy engine: a forward-only cursor over the source table feeds
 * one positional insert per row into the target; after every `batchSize`
 * accepted inserts both connections are rebuilt, the select is re-run and the
 * new cursor is placed with `absolute(rowCount)` so that streaming resumes at
 * the next unprocessed row.
 */
module CopyEngine {
  import opened Wrappers
  import opened Rows
  import opened SqlText

  /**
   * How a run ends: all rows copied, an insert that affected no row,
   * `rowCount % 0`, or a negative batch size refused as the fetch size.
   */
  datatype Outcome = Completed | ZeroAffected(row: nat) | DivisionByZero | FetchSizeRejected

  /** One progress report: rows fetched so far, and the advisory total from the count query. */
  datatype Progress = Progress(rowCount: int, total: int)

  /**
   * Cursor positions over a result of `n` rows: 0 is before the first row,
   * 1..n are the rows, n + 1 is after the last row.
   */
  function NextPosition(position: nat, n: nat): nat
  {
    if position <= n then position + 1 else position
  }

  /** Where `absolute(row)` leaves the cursor: counted from the end for a negative `row`. */
  function AbsolutePosition(row: int, n: nat): nat
  {
    if row > 0 then (if row <= n then row else n + 1)
    else if row == 0 then 0
    else if -row <= n then n + row + 1
    else 0
  }

  /**
   * Resumption: `absolute(k)` on a fresh cursor followed by `next()` lands on
   * row k + 1 when there is one, and reports the end when k is the last row.
   */
  lemma ResumeAfter(k: nat, n: nat)
    requires k <= n
    ensures AbsolutePosition(k, n) == k
    ensures NextPosition(AbsolutePosition(k, n), n) == k + 1
    ensures 1 <= NextPosition(AbsolutePosition(k, n), n) <= n <==> k < n
  {
  }

  /** The result-set types a statement may ask for: the code asks for a forward-only one. */
  datatype CursorKind = ForwardOnly | Scrollable

  /**
   * `absolute(row)` as the JDBC `ResultSet` contract specifies it: refused
   * with an `SQLException` on a forward-only result set, otherwise the
   * position AbsolutePosition gives.
   */
  function ContractAbsolute(kind: CursorKind, row: int, n: nat): Option<nat>
  {
    if kind == ForwardOnly then None else Some(AbsolutePosition(row, n))
  }

  /**
   * Resumption as written, under a driver that keeps the JDBC contract: any
   * run that copies at least `batchSize` rows cycles at row `batchSize`, and
   * repositioning the new forward-only cursor there is refused.
   */
  lemma ForwardOnlyResumeRefused(batchSize: int, n: nat)
    requires 0 < batchSize <= n
    ensures batchSize in Multiples(batchSize, n)
    ensures ContractAbsolute(ForwardOnly, batchSize, n).None?
  {
    MultiplesMember(batchSize, n, batchSize);
  }

  /**
   * Resumption on a scrollable cursor, which the engine uses: repositioning
   * at any cycle point k succeeds, and the next `next()` delivers row k + 1.
   */
  lemma ScrollableResumes(k: nat, n: nat)
    requires k <= n
    ensures ContractAbsolute(Scrollable, k, n) == Some(k)
    ensures NextPosition(ContractAbsolute(Scrollable, k, n).value, n) == k + 1
  {
    ResumeAfter(k, n);
  }

  /** The positive multiples of `b` up to `m`, ascending: the row counts at which a run cycles. */
  function Multiples(b: int, m: nat): seq<nat>
  {
    if m == 0 || b <= 0 then []
    else Multiples(b, m - 1) + (if Divides(b, m) then [m] else [])
  }

  /** `b` divides `m`, by repeated subtraction. */
  predicate Divides(b: int, m: nat)
    requires b > 0
  {
    if m < b then m == 0 else Divides(b, m - b)
  }

  lemma {:induction false} DividesMod(b: int, m: nat)
    requires b > 0
    ensures Divides(b, m) <==> m % b == 0
  {
    if m >= b {
      DividesMod(b, m - b);
      ModUnique(m - b, b, m / b - 1, m % b);
    }
  }

  /** Euclidean division is unique: a quotient and remainder in range are the ones `/` and `%` give. */
  lemma ModUnique(x: int, b: int, q: int, r: int)
    requires b > 0 && 0 <= r < b && x == q * b + r
    ensures x % b == r
  {
    var q2, r2 := x / b, x % b;
    assert (q - q2) * b == r2 - r;
    if q > q2 {
      MulAtLeast(q - q2, b);
    } else if q < q2 {
      MulAtLeast(q2 - q, b);
    }
  }

  lemma MulAtLeast(a: int, b: int)
    requires a >= 1 && b > 0
    ensures a * b >= b
  {
  }

  /** A cycle happens at `x` exactly when `x` is a positive multiple of `b` no larger than `m`. */
  lemma {:induction false} MultiplesMember(b: int, m: nat, x: int)
    ensures x in Multiples(b, m) <==> b > 0 && 1 <= x <= m && x % b == 0
  {
    if m > 0 && b > 0 {
      MultiplesMember(b, m - 1, x);
      DividesMod(b, m);
    }
  }

  /** The cycle points are strictly increasing, so no cycle point repeats. */
  lemma {:induction false} MultiplesIncreasing(b: int, m: nat)
    ensures forall i, j :: 0 <= i < j < |Multiples(b, m)| ==> Multiples(b, m)[i] < Multiples(b, m)[j]
  {
    if m > 0 && b > 0 {
      MultiplesIncreasing(b, m - 1);
      var before := Multiples(b, m - 1);
      forall i | 0 <= i < |before| ensures before[i] < m {
        MultiplesMember(b, m - 1, before[i]);
      }
    }
  }

  /** With a batch size of 2 over 5 rows, the run cycles after rows 2 and 4. */
  lemma CyclesOfTwoOverFive()
    ensures Multiples(2, 5) == [2, 4]
  {
  }

  /** The inserts numbered 1..k were all accepted (reported a positive affected count). */
  predicate Accepted(affected: nat -> int, k: nat)
  {
    k == 0 || (Accepted(affected, k - 1) && affected(k) > 0)
  }

  lemma {:induction false} AcceptedMeans(affected: nat -> int, k: nat)
    ensures Accepted(affected, k) <==> forall j :: 1 <= j <= k ==> affected(j) > 0
  {
    if k > 0 {
      AcceptedMeans(affected, k - 1);
    }
  }

  /** The progress lines of a run that has fetched `k` rows. */
  function ProgressLines(k: nat, total: int): seq<Progress>
  {
    if k == 0 then [] else ProgressLines(k - 1, total) + [Progress(k, total)]
  }

  /** The cursor positions 1..k, in order. */
  function Upto(k: nat): seq<nat>
  {
    if k == 0 then [] else Upto(k - 1) + [k]
  }

  /** The inserts that copying the first `k` rows of `t` produces. */
  ghost function Copied(t: Table, k: nat): seq<BoundRow>
    requires WellFormed(t) && k <= |t.rows|
  {
    var types := ColumnTypes(t.columns);
    var prefix := t.rows[..k];
    assert RowsFit(prefix, types) by {
      forall j | 0 <= j < k ensures |prefix[j]| == |types| { assert prefix[j] == t.rows[j]; }
    }
    BindAll(prefix, types)
  }

  /**
   * The state of a run after `k` accepted inserts: the target holds the
   * first `k` source rows after what it held at the start, the connections
   * were cycled at every multiple of the batch size up to `k`, and one
   * progress line was reported per row.
   */
  ghost predicate Streamed(t: Table, batchSize: int, count: int, affected: nat -> int, start: seq<BoundRow>,
                           k: int, target: seq<BoundRow>, cycles: seq<nat>, progress: seq<Progress>)
  {
    && WellFormed(t) && 0 <= k <= |t.rows|
    && batchSize >= 0 && (batchSize > 0 || k == 0)
    && Accepted(affected, k)
    && target == start + Copied(t, k)
    && |target| == |start| + k
    && cycles == Multiples(batchSize, k)
    && progress == ProgressLines(k, count)
  }

  /** Before the first row, nothing is copied, cycled or reported. */
  lemma StreamedStart(t: Table, batchSize: int, count: int, affected: nat -> int, start: seq<BoundRow>)
    requires WellFormed(t) && batchSize >= 0
    ensures Streamed(t, batchSize, count, affected, start, 0, start, [], [])
  {
    assert t.rows[..0] == [];
  }

  /** One more accepted insert, with the cycle it may trigger, keeps a run in the streamed state. */
  lemma StreamedStep(t: Table, batchSize: int, count: int, affected: nat -> int, start: seq<BoundRow>,
                     k: int, target: seq<BoundRow>, cycles: seq<nat>, progress: seq<Progress>)
    requires Streamed(t, batchSize, count, affected, start, k, target, cycles, progress)
    requires k < |t.rows| && batchSize > 0 && affected(k + 1) > 0
    ensures Streamed(t, batchSize, count, affected, start, k + 1,
                     target + [Bind(t.rows[k], ColumnTypes(t.columns))],
                     cycles + (if Divides(batchSize, k + 1) then [(k + 1) as nat] else []),
                     progress + [Progress(k + 1, count)])
  {
    BindAllSnoc(t.rows, ColumnTypes(t.columns), k);
  }

  /**
   * How a run of the copy engine over `t` may end after fetching `k` rows;
   * `start` is what the target held before the run.
   */
  ghost predicate Ended(t: Table, batchSize: int, count: int, affected: nat -> int, start: seq<BoundRow>,
                        outcome: Outcome, k: int, target: seq<BoundRow>, cycles: seq<nat>, progress: seq<Progress>)
  {
    && WellFormed(t) && 0 <= k <= |t.rows|
    && (match outcome
        case Completed =>
          && k == |t.rows| && batchSize >= 0 && (batchSize > 0 || k == 0)
          && Accepted(affected, k)
          && target == start + Copied(t, k)
        case ZeroAffected(row) =>
          && row == k >= 1 && batchSize >= 0 && (batchSize > 0 || k == 1)
          && Accepted(affected, k - 1) && affected(k) <= 0
          && target == start + Copied(t, k - 1)
        case DivisionByZero =>
          && batchSize == 0 && k == 1
          && Accepted(affected, 1)
          && target == start + Copied(t, 1)
        case FetchSizeRejected =>
          && batchSize < 0 && k == 0
          && target == start)
    && |target| >= |start|
    && cycles == Multiples(batchSize, |target| - |start|)
    && progress == ProgressLines(k, count)
  }

  /** The streamed state with every row fetched is a completed run. */
  lemma EndCompleted(t: Table, batchSize: int, count: int, affected: nat -> int, start: seq<BoundRow>,
                     k: int, target: seq<BoundRow>, cycles: seq<nat>, progress: seq<Progress>)
    requires Streamed(t, batchSize, count, affected, start, k, target, cycles, progress) && k == |t.rows|
    ensures Ended(t, batchSize, count, affected, start, Completed, k, target, cycles, progress)
  {
  }

  /** An insert that affected no row ends the run with the target as it was. */
  lemma EndZeroAffected(t: Table, batchSize: int, count: int, affected: nat -> int, start: seq<BoundRow>,
                        k: int, target: seq<BoundRow>, cycles: seq<nat>, progress: seq<Progress>)
    requires Streamed(t, batchSize, count, affected, start, k, target, cycles, progress)
    requires k < |t.rows| && affected(k + 1) <= 0
    ensures Ended(t, batchSize, count, affected, start, ZeroAffected(k + 1), k + 1, target, cycles,
                  progress + [Progress(k + 1, count)])
  {
  }

  /** With a batch size of 0 the first accepted insert is followed by `rowCount % 0`. */
  lemma EndDivisionByZero(t: Table, batchSize: int, count: int, affected: nat -> int, start: seq<BoundRow>,
                          k: int, target: seq<BoundRow>, cycles: seq<nat>, progress: seq<Progress>)
    requires Streamed(t, batchSize, count, affected, start, k, target, cycles, progress)
    requires k < |t.rows| && batchSize == 0 && affected(k + 1) > 0
    ensures Ended(t, batchSize, count, affected, start, DivisionByZero, k + 1,
                  target + [Bind(t.rows[k], ColumnTypes(t.columns))], cycles, progress + [Progress(k + 1, count)])
  {
    BindAllSnoc(t.rows, ColumnTypes(t.columns), 0);
  }

  /** A negative batch size is refused as the fetch size before the select runs: nothing happens. */
  lemma EndFetchSizeRejected(t: Table, batchSize: int, count: int, affected: nat -> int, start: seq<BoundRow>)
    requires WellFormed(t) && batchSize < 0
    ensures Ended(t, batchSize, count, affected, start, FetchSizeRejected, 0, start, [], [])
  {
  }

  /** The number of the first insert, among 1..n, whose affected count is not positive; n + 1 if none. */
  function FirstRejected(affected: nat -> int, n: nat): (f: nat)
    ensures 1 <= f <= n + 1
  {
    FirstRejectedFrom(affected, 1, n)
  }

  function FirstRejectedFrom(affected: nat -> int, j: nat, n: nat): (f: nat)
    requires 1 <= j <= n + 1
    ensures j <= f <= n + 1
    decreases n + 1 - j
  {
    if j > n then n + 1 else if affected(j) <= 0 then j else FirstRejectedFrom(affected, j + 1, n)
  }

  lemma {:induction false} FirstRejectedFromSpec(affected: nat -> int, j: nat, n: nat)
    requires 1 <= j <= n + 1 && Accepted(affected, j - 1)
    ensures Accepted(affected, FirstRejectedFrom(affected, j, n) - 1)
    ensures FirstRejectedFrom(affected, j, n) <= n ==> affected(FirstRejectedFrom(affected, j, n)) <= 0
    decreases n + 1 - j
  {
    if j <= n && affected(j) > 0 {
      FirstRejectedFromSpec(affected, j + 1, n);
    }
  }

  /** Every insert before the first rejected one was accepted, and the first rejected one was not. */
  lemma FirstRejectedSpec(affected: nat -> int, n: nat)
    ensures Accepted(affected, FirstRejected(affected, n) - 1)
    ensures FirstRejected(affected, n) <= n ==> affected(FirstRejected(affected, n)) <= 0
  {
    FirstRejectedFromSpec(affected, 1, n);
  }

  /** The first rejected insert is the only position with that property. */
  lemma FirstRejectedUnique(affected: nat -> int, n: nat, r: nat)
    requires 1 <= r <= n + 1 && Accepted(affected, r - 1) && (r <= n ==> affected(r) <= 0)
    ensures FirstRejected(affected, n) == r
  {
    var f := FirstRejected(affected, n);
    FirstRejectedSpec(affected, n);
    AcceptedMeans(affected, r - 1);
    AcceptedMeans(affected, f - 1);
  }

  /**
   * The outcome of a run over `n` source rows, stated without reference to
   * the loop: a negative batch size ends it before the select; otherwise the
   * first rejected insert ends it; otherwise a batch size of 0 ends it after
   * the first row; otherwise every row is copied.
   */
  function ExpectedOutcome(n: nat, batchSize: int, affected: nat -> int): Outcome
  {
    var f := FirstRejected(affected, n);
    if batchSize < 0 then FetchSizeRejected
    else if f <= n && (batchSize > 0 || f == 1) then ZeroAffected(f)
    else if batchSize == 0 && n >= 1 then DivisionByZero
    else Completed
  }

  /** The rows fetched (the final `rowCount`) by a run ending in `outcome` over `n` rows. */
  function FetchedBy(outcome: Outcome, n: nat): nat
  {
    match outcome
    case Completed => n
    case ZeroAffected(row) => row
    case DivisionByZero => 1
    case FetchSizeRejected => 0
  }

  /** The rows a run ending in `outcome` over `n` rows appended to the target. */
  function InsertedBy(outcome: Outcome, n: nat): nat
  {
    match outcome
    case Completed => n
    case ZeroAffected(row) => if row == 0 then 0 else row - 1
    case DivisionByZero => 1
    case FetchSizeRejected => 0
  }

  /**
   * A run's ending is fully determined by the source, the batch size and the
   * insert outcomes: its outcome is ExpectedOutcome, it fetched and appended
   * the corresponding number of rows, and its cycles and progress follow.
   */
  lemma EndedDetermined(t: Table, batchSize: int, count: int, affected: nat -> int, start: seq<BoundRow>,
                        outcome: Outcome, k: int, target: seq<BoundRow>, cycles: seq<nat>, progress: seq<Progress>)
    requires Ended(t, batchSize, count, affected, start, outcome, k, target, cycles, progress)
    ensures outcome == ExpectedOutcome(|t.rows|, batchSize, affected)
    ensures k == FetchedBy(outcome, |t.rows|) && InsertedBy(outcome, |t.rows|) <= |t.rows|
    ensures target == start + Copied(t, InsertedBy(outcome, |t.rows|))
    ensures cycles == Multiples(batchSize, InsertedBy(outcome, |t.rows|))
    ensures progress == ProgressLines(k, count)
  {
    var n := |t.rows|;
    var f := FirstRejected(affected, n);
    FirstRejectedSpec(affected, n);
    CopiedRows(t, InsertedBy(outcome, n));
    match outcome
    case Completed =>
      FirstRejectedUnique(affected, n, n + 1);
    case ZeroAffected(row) =>
      FirstRejectedUnique(affected, n, k);
    case DivisionByZero =>
      AcceptedMeans(affected, f - 1);
    case FetchSizeRejected =>
  }

  /** A run completes exactly when every insert is accepted and the batch size is usable. */
  lemma CompletedExactly(n: nat, batchSize: int, affected: nat -> int)
    ensures ExpectedOutcome(n, batchSize, affected) == Completed <==>
            (forall j :: 1 <= j <= n ==> affected(j) > 0) && (batchSize > 0 || (batchSize == 0 && n == 0))
  {
    var f := FirstRejected(affected, n);
    FirstRejectedSpec(affected, n);
    AcceptedMeans(affected, f - 1);
    if forall j :: 1 <= j <= n ==> affected(j) > 0 {
      AcceptedMeans(affected, n);
      FirstRejectedUnique(affected, n, n + 1);
    }
  }

  /**
   * A zero-affected insert at row r stops the run there: every earlier row
   * was accepted and copied, and nothing of row r or later reaches the target.
   */
  lemma ZeroAffectedStops(n: nat, batchSize: int, affected: nat -> int, r: nat)
    requires ExpectedOutcome(n, batchSize, affected) == ZeroAffected(r)
    ensures 1 <= r <= n && affected(r) <= 0
    ensures forall j :: 1 <= j < r ==> affected(j) > 0
    ensures InsertedBy(ZeroAffected(r), n) == r - 1
  {
    FirstRejectedSpec(affected, n);
    AcceptedMeans(affected, r - 1);
  }

  /**
   * The inserts appended for the first `k` rows: one per row, in source order,
   * parameter i of insert j being value i of row j with the type code of column i.
   */
  lemma CopiedRows(t: Table, k: nat)
    requires WellFormed(t) && k <= |t.rows|
    ensures |Copied(t, k)| == k
    ensures forall j, i :: 0 <= j < k && 0 <= i < |t.columns| ==>
              |Copied(t, k)[j]| == |t.columns| && Copied(t, k)[j][i] == Param(t.rows[j][i], t.columns[i].sqlType)
  {
    var types := ColumnTypes(t.columns);
    var prefix := t.rows[..k];
    assert RowsFit(prefix, types) by {
      forall j | 0 <= j < k ensures |prefix[j]| == |types| { assert prefix[j] == t.rows[j]; }
    }
    BindAllLength(prefix, types);
    var copied := Copied(t, k);
    assert copied == BindAll(prefix, types);
    forall j | 0 <= j < k
      ensures copied[j] == Bind(t.rows[j], types)
    {
      BindAllAt(prefix, types, j);
      assert prefix[j] == t.rows[j];
    }
  }

  /** The `rowCount` reported on the i-th progress line is i + 1, with the advisory total beside it. */
  lemma {:induction false} ProgressLinesAt(k: nat, total: int)
    ensures |ProgressLines(k, total)| == k
    ensures forall i :: 0 <= i < k ==> ProgressLines(k, total)[i] == Progress(i + 1, total)
  {
    if k > 0 {
      ProgressLinesAt(k - 1, total);
    }
  }

  /** The positions delivered by `next()` are 1, 2, ..., k: none skipped, none repeated. */
  lemma {:induction false} UptoAt(k: nat)
    ensures |Upto(k)| == k
    ensures forall i :: 0 <= i < k ==> Upto(k)[i] == i + 1
  {
    if k > 0 {
      UptoAt(k - 1);
    }
  }

  /**
   * The count from the count query is advisory: replacing it changes the
   * progress lines and nothing else about how a run ends.
   */
  lemma CountIsAdvisory(t: Table, batchSize: int, count: int, other: int, affected: nat -> int, start: seq<BoundRow>,
                        outcome: Outcome, k: int, target: seq<BoundRow>, cycles: seq<nat>, progress: seq<Progress>)
    requires Ended(t, batchSize, count, affected, start, outcome, k, target, cycles, progress)
    ensures Ended(t, batchSize, other, affected, start, outcome, k, target, cycles, ProgressLines(k, other))
  {
  }

  /** A count of 0 over 3 source rows, all accepted: the run still fetches and copies all 3. */
  lemma ZeroCountStillCopiesAll(batchSize: int, affected: nat -> int)
    requires batchSize > 0 && forall j :: 1 <= j <= 3 ==> affected(j) > 0
    ensures ExpectedOutcome(3, batchSize, affected) == Completed
    ensures FetchedBy(Completed, 3) == 3 && InsertedBy(Completed, 3) == 3
  {
    CompletedExactly(3, batchSize, affected);
  }

  /** Batch size 2 over 5 rows, all accepted: the run completes and cycles after rows 2 and 4. */
  lemma TwoOverFive(affected: nat -> int)
    requires forall j :: 1 <= j <= 5 ==> affected(j) > 0
    ensures ExpectedOutcome(5, 2, affected) == Completed
    ensures Multiples(2, InsertedBy(Completed, 5)) == [2, 4]
  {
    CompletedExactly(5, 2, affected);
    CyclesOfTwoOverFive();
  }

  /**
   * One run of the copy engine: the immutable source table behind the source
   * connection, the target table that grows by appended inserts, and the
   * state of the current source cursor.
   */
  class Engine {
    const source: Table
    const targetTable: string
    const batchSize: int

    /** The rows of the target table, as bound parameter lists, in insertion order. */
    var target: seq<BoundRow>
    /** Position of the current source cursor (see NextPosition). */
    var cursor: nat
    var cursorOpen: bool
    /** How many times the select has been executed, i.e. how many cursors were opened. */
    var generation: nat
    var rowCount: int
    var insertSql: string
    var progress: seq<Progress>
    /** The row counts at which connections were cycled. */
    var cycles: seq<nat>
    /** Every row position a `next()` call has delivered, in delivery order. */
    ghost var fetched: seq<nat>

    ghost predicate Valid()
      reads this
    {
      WellFormed(source) && cursor <= |source.rows| + 1
    }

    /** The insert statement has been built from the column metadata. */
    ghost predicate Prepared()
      reads this
    {
      insertSql == InsertStatement(targetTable, ColumnNames(source.columns))
    }

    constructor (source: Table, targetTable: string, batchSize: int, existing: seq<BoundRow>)
      requires WellFormed(source)
      ensures Valid()
      ensures this.source == source && this.targetTable == targetTable && this.batchSize == batchSize
      ensures target == existing && !cursorOpen && cursor == 0 && generation == 0
      ensures rowCount == 0 && progress == [] && cycles == [] && fetched == []
    {
      this.source := source;
      this.targetTable := targetTable;
      this.batchSize := batchSize;
      target := existing;
      cursor := 0;
      cursorOpen := false;
      generation := 0;
      rowCount := 0;
      insertSql := "";
      progress := [];
      cycles := [];
      fetched := [];
    }

    /** Runs `select * from <source>`: a fresh cursor before the first row. */
    method ExecuteQuery()
      requires Valid()
      modifies this`cursor, this`cursorOpen, this`generation
      ensures Valid()
      ensures cursor == 0 && cursorOpen && generation == old(generation) + 1
    {
      cursor := 0;
      cursorOpen := true;
      generation := generation + 1;
    }

    /** `resultSet.next()`: advances one row and says whether the cursor is on a row. */
    method Next() returns (onRow: bool)
      requires Valid() && cursorOpen
      modifies this`cursor, this`fetched
      ensures Valid()
      ensures cursor == NextPosition(old(cursor), |source.rows|)
      ensures onRow <==> 1 <= cursor <= |source.rows|
      ensures fetched == if onRow then old(fetched) + [cursor] else old(fetched)
    {
      if cursor <= |source.rows| {
        cursor := cursor + 1;
      }
      onRow := cursor <= |source.rows|;
      if onRow {
        fetched := fetched + [cursor];
      }
    }

    /** `resultSet.absolute(row)` on a scrollable cursor: places the cursor without fetching. */
    method Absolute(row: int) returns (onRow: bool)
      requires Valid() && cursorOpen
      modifies this`cursor
      ensures Valid()
      ensures cursor == AbsolutePosition(row, |source.rows|)
      ensures onRow <==> 1 <= cursor <= |source.rows|
    {
      cursor := ContractAbsolute(Scrollable, row, |source.rows|).value;
      onRow := 1 <= cursor <= |source.rows|;
    }

    /** Closes the source statement and its result set. */
    method Close()
      modifies this`cursorOpen
      ensures !cursorOpen
    {
      cursorOpen := false;
    }

    /** `resultSet.getObject(column + 1)` on the current row. */
    function GetObject(column: nat): Value
      reads this
      requires Valid() && 1 <= cursor <= |source.rows| && column < |source.columns|
    {
      source.rows[cursor - 1][column]
    }

    /** Binds every column of the current row with its recorded type code. */
    method BindCurrent(types: seq<int>) returns (params: BoundRow)
      requires Valid() && 1 <= cursor <= |source.rows| && |types| == |source.columns|
      ensures params == Bind(source.rows[cursor - 1], types)
    {
      params := [];
      for i := 0 to |types|
        invariant |params| == i
        invariant forall j :: 0 <= j < i ==> params[j] == Param(source.rows[cursor - 1][j], types[j])
      {
        params := params + [Param(GetObject(i), types[i])];
      }
    }

    /** Executes one prepared insert whose reported affected-row count is `affected`. */
    method ExecuteInsert(params: BoundRow, affected: int)
      modifies this`target
      ensures target == if affected > 0 then old(target) + [params] else old(target)
    {
      if affected > 0 {
        target := target + [params];
      }
    }

    /**
     * The connection cycle: close the cursor, reopen both connections, re-run
     * the select and place the new cursor on row `rowCount`.
     */
    method Reconnect()
      requires Valid() && 0 <= rowCount <= |source.rows|
      modifies this`cursor, this`cursorOpen, this`generation, this`cycles
      ensures Valid() && cursorOpen
      ensures cursor == rowCount
      ensures generation == old(generation) + 1
      ensures cycles == old(cycles) + [rowCount as nat]
    {
      Close();
      ExecuteQuery();
      var positioned := Absolute(rowCount);
      cycles := cycles + [rowCount as nat];
    }

    /**
     * Runs the select on a fresh cursor, reads the column metadata in order
     * and builds the insert statement from it.
     */
    method Prepare() returns (types: seq<int>)
      requires Valid()
      modifies this`cursor, this`cursorOpen, this`generation, this`insertSql
      ensures Valid() && cursor == 0 && cursorOpen && generation == old(generation) + 1
      ensures types == ColumnTypes(source.columns)
      ensures insertSql == InsertStatement(targetTable, ColumnNames(source.columns))
    {
      ExecuteQuery();
      var names;
      names, types := ReadColumns(source.columns);
      insertSql := InsertStatement(targetTable, names);
    }

    /**
     * The batch-boundary check after an accepted insert: cycle the
     * connections exactly when `rowCount` is a multiple of `batchSize`.
     */
    method CycleIfDue()
      requires Valid() && batchSize > 0 && 0 <= rowCount <= |source.rows| && cursor == rowCount
      modifies this`cursor, this`cursorOpen, this`generation, this`cycles
      ensures Valid() && cursor == rowCount
      ensures cursorOpen == (old(cursorOpen) || Divides(batchSize, rowCount))
      ensures cycles == old(cycles) + (if Divides(batchSize, rowCount) then [rowCount as nat] else [])
      ensures generation == old(generation) + |cycles| - |old(cycles)|
    {
      DividesMod(batchSize, rowCount);
      if rowCount % batchSize == 0 {
        Reconnect();
      }
    }

    /**
     * Prepares `insertSql`, binds the current row, counts it (the progress
     * line is reported before the insert executes) and executes its insert.
     */
    method InsertCurrent(types: seq<int>, count: int, affected: nat -> int) returns (effect: int)
      requires Valid() && 1 <= cursor <= |source.rows| && rowCount == cursor - 1 && |types| == |source.columns|
      requires Prepared()
      modifies this`target, this`rowCount, this`progress
      ensures rowCount == old(rowCount) + 1 && effect == affected(rowCount)
      ensures progress == old(progress) + [Progress(rowCount, count)]
      ensures target == if effect > 0 then old(target) + [Bind(source.rows[old(rowCount)], types)] else old(target)
    {
      var params := BindCurrent(types);
      rowCount := rowCount + 1;
      progress := progress + [Progress(rowCount, count)];
      effect := affected(rowCount);
      ExecuteInsert(params, effect);
    }

    /**
     * One pass of the streaming loop on the row the cursor is on: insert it,
     * stop on a non-positive affected count or on `rowCount % 0`, cycle the
     * connections on a batch boundary, then evaluate the loop condition
     * `next()`. Whether it cycles or not, the cursor is on row `rowCount`
     * before that `next()`, which therefore delivers row `rowCount + 1`.
     */
    method ProcessRow(types: seq<int>, count: int, affected: nat -> int, ghost start: seq<BoundRow>)
      returns (stopped: bool, outcome: Outcome, more: bool)
      requires Valid() && cursorOpen && batchSize >= 0
      requires 1 <= cursor <= |source.rows| && rowCount == cursor - 1 && types == ColumnTypes(source.columns)
      requires Prepared()
      requires Streamed(source, batchSize, count, affected, start, rowCount, target, cycles, progress)
      requires fetched == Upto(cursor)
      modifies this`target, this`rowCount, this`progress, this`cursor, this`cursorOpen, this`generation, this`cycles, this`fetched
      ensures Valid() && cursorOpen
      ensures rowCount == old(rowCount) + 1
      ensures generation == old(generation) + |cycles| - |old(cycles)|
      ensures stopped ==> Ended(source, batchSize, count, affected, start, outcome, rowCount, target, cycles, progress)
      ensures stopped ==> !outcome.Completed? && fetched == Upto(rowCount)
      ensures !stopped ==> Streamed(source, batchSize, count, affected, start, rowCount, target, cycles, progress)
      ensures !stopped ==> cursor == rowCount + 1 && (more <==> rowCount < |source.rows|)
      ensures !stopped ==> fetched == Upto(if more then rowCount + 1 else rowCount)
    {
      ghost var k, before, cyclesBefore, progressBefore := rowCount, target, cycles, progress;
      var effect := InsertCurrent(types, count, affected);
      if effect <= 0 {
        EndZeroAffected(source, batchSize, count, affected, start, k, before, cyclesBefore, progressBefore);
        return true, ZeroAffected(rowCount), false;
      }
      if batchSize == 0 {
        EndDivisionByZero(source, batchSize, count, affected, start, k, before, cyclesBefore, progressBefore);
        return true, DivisionByZero, false;
      }
      CycleIfDue();
      StreamedStep(source, batchSize, count, affected, start, k, before, cyclesBefore, progressBefore);
      more := Next();
      return false, Completed, more;
    }

    /**
     * Copies the source table into the target. `count` is the result of the
     * count query and `affected(k)` is what the target reports for the k-th
     * insert of the run.
     */
    method SyncDataSource(count: int, affected: nat -> int) returns (outcome: Outcome)
      requires Valid()
      modifies this
      ensures Valid()
      ensures Ended(source, batchSize, count, affected, old(target), outcome, rowCount, target, cycles, progress)
      ensures fetched == Upto(rowCount)
      ensures outcome.FetchSizeRejected? ==>
                cursor == old(cursor) && cursorOpen == old(cursorOpen) && generation == old(generation) && insertSql == old(insertSql)
      ensures !outcome.FetchSizeRejected? ==>
                && insertSql == InsertStatement(targetTable, ColumnNames(source.columns))
                && generation == old(generation) + 1 + |cycles|
                && (cursorOpen <==> !outcome.Completed?)
    {
      rowCount := 0;
      progress := [];
      cycles := [];
      fetched := [];
      if batchSize < 0 {
        EndFetchSizeRejected(source, batchSize, count, affected, target);
        return FetchSizeRejected;
      }
      var types := Prepare();
      StreamedStart(source, batchSize, count, affected, target);
      outcome := StreamRows(types, count, affected, target);
    }

    /**
     * The `while (resultSet.next())` loop, entered on a fresh cursor with
     * nothing fetched yet; `start` is what the target held before the run.
     */
    method StreamRows(types: seq<int>, count: int, affected: nat -> int, ghost start: seq<BoundRow>)
      returns (outcome: Outcome)
      requires Valid() && cursorOpen && cursor == 0 && batchSize >= 0
      requires types == ColumnTypes(source.columns)
      requires Prepared()
      requires rowCount == 0 && fetched == []
      requires Streamed(source, batchSize, count, affected, start, 0, target, cycles, progress)
      modifies this`target, this`rowCount, this`progress, this`cursor, this`cursorOpen, this`generation, this`cycles, this`fetched
      ensures Valid()
      ensures Ended(source, batchSize, count, affected, start, outcome, rowCount, target, cycles, progress)
      ensures fetched == Upto(rowCount)
      ensures generation == old(generation) + |cycles|
      ensures cursorOpen <==> !outcome.Completed?
    {
      ghost var n := |source.rows|;
      var more := Next();
      while more
        invariant Valid() && cursorOpen
        invariant Streamed(source, batchSize, count, affected, start, rowCount, target, cycles, progress)
        invariant cursor == rowCount + 1
        invariant more <==> rowCount < n
        invariant fetched == Upto(if more then rowCount + 1 else rowCount)
        invariant generation == old(generation) + |cycles|
        decreases n - rowCount
      {
        var stopped, result;
        stopped, result, more := ProcessRow(types, count, affected, start);
        if stopped {
          return result;
        }
      }
      Close();
      EndCompleted(source, batchSize, count, affected, start, rowCount, target, cycles, progress);
      return Completed;
    }
  }
}
