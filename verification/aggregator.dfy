/** `get_sum` and `get_group_by`: sums of the valid numeric cells of a column,
    overall or per distinct value of another column. Numbers are exact reals. */
module Aggregator {
  import opened Wrappers
  import opened StringOrder
  import opened Sheet
  import opened Decimal
  import opened Validator

  /** `sums`: `reduce(lambda x, y: x + y, values, 0)`, a left fold from 0. */
  function Sums(values: seq<real>): real {
    if values == [] then 0.0 else Sums(values[..|values| - 1]) + values[|values| - 1]
  }

  /** The fold distributes over concatenation. */
  lemma {:induction false} SumsConcat(a: seq<real>, b: seq<real>)
    ensures Sums(a + b) == Sums(a) + Sums(b)
  {
    if b != [] {
      var b' := b[..|b| - 1];
      assert (a + b)[..|a + b| - 1] == a + b';
      SumsConcat(a, b');
    } else {
      assert a + b == a;
    }
  }

  /** What a cell adds to a total: its value when it is a valid number, else nothing. */
  function Contribution(cell: string): real {
    if ValidNumber(cell) then Value(cell) else 0.0
  }

  /** The total of exactly the valid cells, each at its exact value; 0 when there are none. */
  function CellTotal(cells: seq<string>): real {
    if cells == [] then 0.0 else Contribution(cells[0]) + CellTotal(cells[1..])
  }

  lemma {:induction false} CellTotalSnoc(cells: seq<string>, v: string)
    ensures CellTotal(cells + [v]) == CellTotal(cells) + Contribution(v)
  {
    if cells != [] {
      assert (cells + [v])[1..] == cells[1..] + [v];
      CellTotalSnoc(cells[1..], v);
    } else {
      assert [] + [v] == [v];
    }
  }

  /** Example: `"10"` and `"20.5"` count, `"abc"` does not. */
  lemma CellTotalExample()
    ensures CellTotal(["10", "20.5", "abc"]) == 30.5
  {
    ContributionExamples();
    assert CellTotal(["abc"]) == 0.0 by {
      assert ["abc"][1..] == [];
    }
    assert CellTotal(["20.5", "abc"]) == 20.5 by {
      assert ["20.5", "abc"][1..] == ["abc"];
    }
    assert ["10", "20.5", "abc"][1..] == ["20.5", "abc"];
  }

  lemma ContributionExamples()
    ensures Contribution("abc") == 0.0 && Contribution("20.5") == 20.5 && Contribution("10") == 10.0
  {
    ValueExamples();
    RejectedExamples();
  }

  /** The guard both aggregates share: there is a first row and `col` indexes into it. */
  predicate InRange(rows: seq<Row>, col: int) {
    rows != [] && 0 <= col < |rows[0]|
  }

  /** No cell of column `col` among the first `n` rows is a valid number. */
  predicate NoneValid(rows: seq<Row>, col: nat, n: nat)
    requires Fits(rows, col) && n <= |rows|
  {
    forall j :: 0 <= j < n ==> !ValidNumber(rows[j][col])
  }

  /** `get_sum`: `None` when there are no rows, the column is out of range or no cell
      in it is a valid number; otherwise the total of its valid cells. */
  method GetSum(rows: seq<Row>, col: int) returns (r: Option<real>)
    requires InRange(rows, col) ==> Fits(rows, col)
    ensures r.None? <==> !InRange(rows, col) || forall j :: 0 <= j < |rows| ==> !ValidNumber(rows[j][col])
    ensures r.Some? ==> r.value == CellTotal(Column(rows, col))
  {
    if !InRange(rows, col) {
      return None;
    }
    var nums: seq<real> := [];
    var i := 0;
    while i < |rows|
      invariant 0 <= i <= |rows|
      invariant Sums(nums) == CellTotal(Column(rows[..i], col))
      invariant nums == [] <==> NoneValid(rows, col, i)
    {
      SumStep(rows, col, i, nums);
      var v := rows[i][col];
      if ValidNumber(v) {
        nums := nums + [Value(v)];
      }
      i := i + 1;
    }
    assert rows[..i] == rows;
    r := if nums != [] then Some(Sums(nums)) else None;
  }

  /** One row of `get_sum`'s loop: a valid cell is appended at its value, and the
      list stays empty exactly while no valid cell has been met. */
  lemma SumStep(rows: seq<Row>, col: nat, i: nat, nums: seq<real>)
    requires Fits(rows, col) && i < |rows|
    requires Sums(nums) == CellTotal(Column(rows[..i], col))
    requires nums == [] <==> NoneValid(rows, col, i)
    ensures var v := rows[i][col];
      var nums' := if ValidNumber(v) then nums + [Value(v)] else nums;
      && Sums(nums') == CellTotal(Column(rows[..i + 1], col))
      && (nums' == [] <==> NoneValid(rows, col, i + 1))
  {
    var v := rows[i][col];
    ColumnSnoc(rows[..i], rows[i], col);
    CellTotalSnoc(Column(rows[..i], col), v);
    assert rows[..i + 1] == rows[..i] + [rows[i]];
    if ValidNumber(v) {
      assert (nums + [Value(v)])[..|nums|] == nums;
    }
  }

  /** One `(value, sum)` pair of `get_group_by`'s result. */
  datatype Group = Group(key: string, total: real)

  /** The column `get_group_by` sums: 1 when grouping on column 0, else 0. */
  function TargetColumn(col: int): (t: nat)
    ensures t != col && t <= 1
    ensures t == 1 ==> col == 0
  {
    if col == 0 then 1 else 0
  }

  /** The rows whose cell `col` is `k`, in their order. */
  function Matching(rows: seq<Row>, col: nat, k: string): (m: seq<Row>)
    requires Fits(rows, col)
    ensures forall n: nat :: Fits(rows, n) ==> Fits(m, n)
  {
    if rows == [] then []
    else
      assert forall n: nat :: Fits(rows, n) ==> Fits(rows[1..], n);
      (if rows[0][col] == k then [rows[0]] else []) + Matching(rows[1..], col, k)
  }

  lemma {:induction false} MatchingSnoc(rows: seq<Row>, r: Row, col: nat, k: string)
    requires Fits(rows, col) && col < |r|
    ensures Fits(rows + [r], col)
    ensures Matching(rows + [r], col, k) == Matching(rows, col, k) + (if r[col] == k then [r] else [])
  {
    if rows != [] {
      assert (rows + [r])[1..] == rows[1..] + [r];
      MatchingSnoc(rows[1..], r, col, k);
    } else {
      assert [] + [r] == [r];
    }
  }

  lemma {:induction false} MatchingAbsent(rows: seq<Row>, col: nat, k: string)
    requires Fits(rows, col)
    requires forall j :: 0 <= j < |rows| ==> rows[j][col] != k
    ensures Matching(rows, col, k) == []
  {
    if rows != [] {
      MatchingAbsent(rows[1..], col, k);
    }
  }

  /** Some row has `k` in column `col`. */
  predicate HasKey(rows: seq<Row>, col: nat, k: string)
    requires Fits(rows, col)
  {
    exists j :: 0 <= j < |rows| && rows[j][col] == k
  }

  /** Some group has key `k`. */
  predicate IsGroupKey(res: seq<Group>, k: string) {
    exists g :: g in res && g.key == k
  }

  /** A key has rows exactly when some row holds it. */
  lemma {:induction false} MatchingNonEmpty(rows: seq<Row>, col: nat, k: string)
    requires Fits(rows, col)
    ensures Matching(rows, col, k) != [] <==> HasKey(rows, col, k)
  {
    if rows != [] {
      MatchingNonEmpty(rows[1..], col, k);
      if HasKey(rows, col, k) && rows[0][col] != k {
        var j :| 0 <= j < |rows| && rows[j][col] == k;
        assert rows[1..][j - 1] == rows[j];
      }
      if HasKey(rows[1..], col, k) {
        var j :| 0 <= j < |rows| - 1 && rows[1..][j][col] == k;
        assert rows[j + 1][col] == k;
      }
    }
  }

  lemma HasKeySnoc(s: seq<Row>, i: nat, col: nat)
    requires i < |s| && Fits(s, col)
    ensures forall k :: HasKey(s[..i + 1], col, k) <==> HasKey(s[..i], col, k) || s[i][col] == k
  {
    forall k
      ensures HasKey(s[..i + 1], col, k) <==> HasKey(s[..i], col, k) || s[i][col] == k
    {
      if HasKey(s[..i + 1], col, k) {
        var j :| 0 <= j < i + 1 && s[..i + 1][j][col] == k;
        if j < i {
          assert s[..i][j] == s[j];
        }
      }
      if HasKey(s[..i], col, k) {
        var j :| 0 <= j < i && s[..i][j][col] == k;
        assert s[..i + 1][j] == s[j];
      }
      if s[i][col] == k {
        assert s[..i + 1][i] == s[i];
      }
    }
  }

  lemma IsGroupKeySnoc(res: seq<Group>, g: Group)
    ensures forall k :: IsGroupKey(res + [g], k) <==> IsGroupKey(res, k) || g.key == k
  {
    forall k
      ensures IsGroupKey(res + [g], k) <==> IsGroupKey(res, k) || g.key == k
    {
      if IsGroupKey(res, k) {
        var h :| h in res && h.key == k;
        assert h in res + [g];
      }
      assert g in res + [g];
    }
  }

  /** Adjacent rows are in ascending key order. */
  predicate SortedOn(s: seq<Row>, col: nat)
    requires Fits(s, col)
  {
    forall i :: 0 <= i < |s| - 1 ==> LessEq(s[i][col], s[i + 1][col])
  }

  /** Puts `x` before the first row whose key is not below `x`'s. */
  function Insert(x: Row, s: seq<Row>, col: nat): (r: seq<Row>)
    requires col < |x| && Fits(s, col)
    ensures |r| == |s| + 1 && Fits(r, col)
    ensures multiset(r) == multiset(s) + multiset{x}
    ensures r[0] == x || (s != [] && r[0] == s[0])
  {
    if s == [] || !Less(s[0][col], x[col]) then [x] + s
    else
      assert s == [s[0]] + s[1..];
      [s[0]] + Insert(x, s[1..], col)
  }

  /** The sort of `get_group_by`, on the key alone: a stable insertion sort. */
  function SortByKey(rows: seq<Row>, col: nat): (s: seq<Row>)
    requires Fits(rows, col)
    ensures |s| == |rows| && Fits(s, col)
    ensures multiset(s) == multiset(rows)
  {
    if rows == [] then []
    else
      assert rows == [rows[0]] + rows[1..];
      Insert(rows[0], SortByKey(rows[1..], col), col)
  }

  lemma {:induction false} InsertSorted(x: Row, s: seq<Row>, col: nat)
    requires col < |x| && Fits(s, col) && SortedOn(s, col)
    ensures SortedOn(Insert(x, s, col), col)
  {
    if s == [] || !Less(s[0][col], x[col]) {
      if s != [] {
        NotLessIsAtLeast(s[0][col], x[col]);
      }
    } else {
      InsertSorted(x, s[1..], col);
      var r := Insert(x, s, col);
      assert r[1..] == Insert(x, s[1..], col);
      assert LessEq(r[0][col], r[1][col]);
    }
  }

  lemma {:induction false} SortSorted(rows: seq<Row>, col: nat)
    requires Fits(rows, col)
    ensures SortedOn(SortByKey(rows, col), col)
  {
    if rows != [] {
      SortSorted(rows[1..], col);
      InsertSorted(rows[0], SortByKey(rows[1..], col), col);
    }
  }

  lemma MatchingCons(r: Row, rows: seq<Row>, col: nat, k: string)
    requires col < |r| && Fits(rows, col)
    ensures Fits([r] + rows, col)
    ensures Matching([r] + rows, col, k) == (if r[col] == k then [r] else []) + Matching(rows, col, k)
  {
    assert ([r] + rows)[1..] == rows;
  }

  /** Insertion keeps, for every key, the rows with that key in their relative order. */
  lemma {:induction false} InsertMatching(x: Row, s: seq<Row>, col: nat, k: string)
    requires col < |x| && Fits(s, col)
    ensures Matching(Insert(x, s, col), col, k) == Matching([x] + s, col, k)
  {
    if s != [] && Less(s[0][col], x[col]) {
      var tail := Insert(x, s[1..], col);
      assert Insert(x, s, col) == [s[0]] + tail;
      InsertMatching(x, s[1..], col, k);
      LessIrreflexive(x[col]);
      SwapMatching(x, s, col, k);
      MatchingCons(s[0], tail, col, k);
      MatchingCons(x, s[1..], col, k);
    }
  }

  /** Two rows with different keys can trade places without changing any key's rows. */
  lemma SwapMatching(x: Row, s: seq<Row>, col: nat, k: string)
    requires col < |x| && Fits(s, col) && s != [] && s[0][col] != x[col]
    ensures Fits([s[0], x] + s[1..], col)
    ensures Matching([x] + s, col, k) == Matching([s[0], x] + s[1..], col, k)
  {
    var rest := s[1..];
    assert s == [s[0]] + rest;
    assert [s[0], x] + rest == [s[0]] + ([x] + rest);
    MatchingCons(x, rest, col, k);
    MatchingCons(s[0], rest, col, k);
    MatchingCons(x, s, col, k);
    MatchingCons(s[0], [x] + rest, col, k);
  }

  /** The sort keeps, for every key, the rows with that key in their original order. */
  lemma {:induction false} SortMatching(rows: seq<Row>, col: nat, k: string)
    requires Fits(rows, col)
    ensures Matching(SortByKey(rows, col), col, k) == Matching(rows, col, k)
  {
    if rows != [] {
      var rest := SortByKey(rows[1..], col);
      SortMatching(rows[1..], col, k);
      InsertMatching(rows[0], rest, col, k);
      MatchingCons(rows[0], rest, col, k);
      MatchingCons(rows[0], rows[1..], col, k);
      assert rows == [rows[0]] + rows[1..];
    }
  }

  lemma FitsPermutation(a: seq<Row>, b: seq<Row>, n: nat)
    requires multiset(a) == multiset(b) && Fits(a, n)
    ensures Fits(b, n)
  {
    forall j | 0 <= j < |b|
      ensures n < |b[j]|
    {
      assert b[j] in multiset(a);
    }
  }

  /** The per-group loop: the group's valid cells summed; `0.0` when there are none. */
  method GroupTotal(cells: seq<string>) returns (t: real)
    ensures t == CellTotal(cells)
  {
    var numeric: seq<real> := [];
    var i := 0;
    while i < |cells|
      invariant 0 <= i <= |cells|
      invariant Sums(numeric) == CellTotal(cells[..i])
    {
      CellTotalSnoc(cells[..i], cells[i]);
      assert cells[..i + 1] == cells[..i] + [cells[i]];
      if ValidNumber(cells[i]) {
        assert (numeric + [Value(cells[i])])[..|numeric|] == numeric;
        numeric := numeric + [Value(cells[i])];
      }
      i := i + 1;
    }
    assert cells[..i] == cells;
    t := if numeric != [] then Sums(numeric) else 0.0;
  }

  /** Group keys strictly ascending, hence each key once. */
  predicate Ascending(res: seq<Group>) {
    forall a, b :: 0 <= a < b < |res| ==> Less(res[a].key, res[b].key)
  }

  /** `get_group_by`: `[]` when there are no rows or the column is out of range;
      otherwise one group per distinct value of column `col`, in strictly ascending
      string order, each with the total of the valid cells of the target column over
      exactly the rows holding that value (`0.0` when none is valid). */
  method GetGroupBy(rows: seq<Row>, col: int) returns (res: seq<Group>)
    requires InRange(rows, col) ==> Fits(rows, col) && Fits(rows, TargetColumn(col))
    ensures !InRange(rows, col) ==> res == []
    ensures InRange(rows, col) ==> Ascending(res)
    ensures InRange(rows, col) ==> forall k :: IsGroupKey(res, k) <==> HasKey(rows, col, k)
    ensures InRange(rows, col) ==> forall g :: g in res ==>
      g.total == CellTotal(Column(Matching(rows, col, g.key), TargetColumn(col)))
  {
    if !InRange(rows, col) {
      return [];
    }
    var target := TargetColumn(col);
    var s := SortByKey(rows, col);
    SortSorted(rows, col);
    FitsPermutation(rows, s, target);
    res := ScanGroups(s, col, target);
    SortMatchingAll(rows, col);
    forall k
      ensures HasKey(s, col, k) <==> HasKey(rows, col, k)
    {
      MatchingNonEmpty(s, col, k);
      MatchingNonEmpty(rows, col, k);
    }
  }

  /** Each group receives the same rows, counted with repetition, whatever order the sort
      leaves equal keys in. */
  lemma SortGroupsPermuted(rows: seq<Row>, col: nat, k: string)
    requires Fits(rows, col)
    ensures multiset(Matching(SortByKey(rows, col), col, k)) == multiset(Matching(rows, col, k))
  {
    SortMatching(rows, col, k);
  }

  lemma SortMatchingAll(rows: seq<Row>, col: nat)
    requires Fits(rows, col)
    ensures forall k :: Matching(SortByKey(rows, col), col, k) == Matching(rows, col, k)
  {
    forall k
      ensures Matching(SortByKey(rows, col), col, k) == Matching(rows, col, k)
    {
      SortMatching(rows, col, k);
    }
  }

  /** What the scan knows after the first `i` sorted rows: `curr` is the key of the open
      group and `nums` its target cells so far; `res` holds the closed groups, ascending,
      below `curr`, each with the total of its rows so far; and the keys of `res` and
      `curr` together are exactly the keys seen. */
  ghost predicate ScanInv(s: seq<Row>, col: nat, target: nat, i: nat, curr: Option<string>, nums: seq<string>, res: seq<Group>)
    requires Fits(s, col) && Fits(s, target) && i <= |s|
  {
    && (curr.None? <==> i == 0)
    && (i == 0 ==> res == [] && nums == [])
    && (curr.Some? ==> curr.value == s[i - 1][col])
    && (curr.Some? ==> forall j :: 0 <= j < i ==> LessEq(s[j][col], curr.value))
    && (curr.Some? ==> nums == Column(Matching(s[..i], col, curr.value), target))
    && Ascending(res)
    && (curr.Some? ==> forall g :: g in res ==> Less(g.key, curr.value))
    && (forall g :: g in res ==> g.total == CellTotal(Column(Matching(s[..i], col, g.key), target)))
    && (forall k :: IsGroupKey(res, k) || curr == Some(k) <==> HasKey(s[..i], col, k))
  }

  /** The scan of the sorted rows: consecutive rows with the same key form one group. */
  method ScanGroups(s: seq<Row>, col: nat, target: nat) returns (res: seq<Group>)
    requires Fits(s, col) && Fits(s, target) && SortedOn(s, col)
    ensures Ascending(res)
    ensures forall k :: IsGroupKey(res, k) <==> HasKey(s, col, k)
    ensures forall g :: g in res ==> g.total == CellTotal(Column(Matching(s, col, g.key), target))
  {
    var i := 0;
    var curr: Option<string> := None;
    var nums: seq<string> := [];
    res := [];
    assert s[..0] == [];
    while i < |s|
      invariant 0 <= i <= |s|
      invariant ScanInv(s, col, target, i, curr, nums, res)
    {
      var key := s[i][col];
      if curr.None? || curr.value != key {
        if curr.Some? {
          var t := GroupTotal(nums);
          ScanNewKey(s, col, target, i, curr.value, nums, res, t);
          res := res + [Group(curr.value, t)];
        } else {
          ScanFirstKey(s, col, target);
        }
        curr := Some(key);
        nums := [];
      } else {
        ScanSameKey(s, col, target, i, curr, nums, res);
      }
      nums := nums + [s[i][target]];
      i := i + 1;
    }
    var t := 0.0;
    if curr.Some? {
      t := GroupTotal(nums);
    }
    ScanClose(s, col, target, curr, nums, res, t);
    if curr.Some? {
      res := res + [Group(curr.value, t)];
    }
  }

  /** A row with the open group's key joins that group. */
  lemma ScanSameKey(s: seq<Row>, col: nat, target: nat, i: nat, curr: Option<string>, nums: seq<string>, res: seq<Group>)
    requires Fits(s, col) && Fits(s, target) && i < |s|
    requires ScanInv(s, col, target, i, curr, nums, res)
    requires curr == Some(s[i][col])
    ensures ScanInv(s, col, target, i + 1, curr, nums + [s[i][target]], res)
  {
    var key := s[i][col];
    GroupStep(s, i, col, target);
    HasKeySnoc(s, i, col);
    LessIrreflexive(key);
    TotalsCarry(s, i, col, target, res, key);
  }

  /** The first row opens the first group. */
  lemma ScanFirstKey(s: seq<Row>, col: nat, target: nat)
    requires Fits(s, col) && Fits(s, target) && 0 < |s|
    ensures ScanInv(s, col, target, 1, Some(s[0][col]), [s[0][target]], [])
  {
    var key := s[0][col];
    assert s[..1] == [s[0]];
    assert Matching([s[0]], col, key) == [s[0]];
    forall k
      ensures HasKey(s[..1], col, k) <==> k == key
    {
      if HasKey(s[..1], col, k) {
        var j :| 0 <= j < 1 && s[..1][j][col] == k;
      }
    }
  }

  /** A row with a new key closes the open group `prev` (total `t`) and opens another. */
  lemma ScanNewKey(s: seq<Row>, col: nat, target: nat, i: nat, prev: string, nums: seq<string>, res: seq<Group>, t: real)
    requires Fits(s, col) && Fits(s, target) && SortedOn(s, col) && i < |s|
    requires ScanInv(s, col, target, i, Some(prev), nums, res)
    requires prev != s[i][col] && t == CellTotal(nums)
    ensures ScanInv(s, col, target, i + 1, Some(s[i][col]), [s[i][target]], res + [Group(prev, t)])
  {
    var key := s[i][col];
    CloseGroup(s, i, col, prev, key, res);
    NewKeyOrder(s, col, i, prev, res, t);
    NewKeyTotals(s, col, target, i, prev, nums, res, t);
    NewKeyKeys(s, col, i, prev, res, t);
  }

  /** Closing `prev` keeps the closed keys ascending and below the new key. */
  lemma NewKeyOrder(s: seq<Row>, col: nat, i: nat, prev: string, res: seq<Group>, t: real)
    requires Fits(s, col) && i < |s|
    requires Less(prev, s[i][col])
    requires forall j :: 0 <= j < i ==> Less(s[j][col], s[i][col])
    requires Ascending(res) && forall g :: g in res ==> Less(g.key, prev) && Less(g.key, s[i][col])
    ensures forall j :: 0 <= j < i + 1 ==> LessEq(s[j][col], s[i][col])
    ensures Ascending(res + [Group(prev, t)])
    ensures forall g :: g in res + [Group(prev, t)] ==> Less(g.key, s[i][col])
  {
    var res' := res + [Group(prev, t)];
    forall a, b | 0 <= a < b < |res'|
      ensures Less(res'[a].key, res'[b].key)
    {
      if b < |res| {
        assert res'[a] == res[a] && res'[b] == res[b];
      } else {
        assert res'[a] == res[a] && res[a] in res;
      }
    }
    assert forall g :: g in res' ==> g in res || g == Group(prev, t);
  }

  /** Closing `prev` at total `t` keeps every closed total right one row further on,
      and the new key's only target cell so far is the new row's. */
  lemma NewKeyTotals(s: seq<Row>, col: nat, target: nat, i: nat, prev: string, nums: seq<string>, res: seq<Group>, t: real)
    requires Fits(s, col) && Fits(s, target) && i < |s| && prev != s[i][col]
    requires forall j :: 0 <= j < i ==> s[..i][j][col] != s[i][col]
    requires forall g :: g in res ==> g.key != s[i][col]
    requires nums == Column(Matching(s[..i], col, prev), target) && t == CellTotal(nums)
    requires forall g :: g in res ==> g.total == CellTotal(Column(Matching(s[..i], col, g.key), target))
    ensures forall g :: g in res + [Group(prev, t)] ==>
      g.total == CellTotal(Column(Matching(s[..i + 1], col, g.key), target))
    ensures [s[i][target]] == Column(Matching(s[..i + 1], col, s[i][col]), target)
  {
    var key := s[i][col];
    GroupStep(s, i, col, target);
    MatchingAbsent(s[..i], col, key);
    TotalsCarry(s, i, col, target, res, key);
    assert Matching(s[..i + 1], col, prev) == Matching(s[..i], col, prev) + [];
    var res' := res + [Group(prev, t)];
    forall g | g in res'
      ensures g.total == CellTotal(Column(Matching(s[..i + 1], col, g.key), target))
    {
      if g !in res {
        assert g == Group(prev, t);
        assert Matching(s[..i + 1], col, prev) == Matching(s[..i], col, prev);
      }
    }
  }

  /** The keys seen so far stay the closed keys plus the open one. */
  lemma NewKeyKeys(s: seq<Row>, col: nat, i: nat, prev: string, res: seq<Group>, t: real)
    requires Fits(s, col) && i < |s|
    requires forall k :: IsGroupKey(res, k) || Some(prev) == Some(k) <==> HasKey(s[..i], col, k)
    ensures forall k :: IsGroupKey(res + [Group(prev, t)], k) || Some(s[i][col]) == Some(k) <==> HasKey(s[..i + 1], col, k)
  {
    HasKeySnoc(s, i, col);
    IsGroupKeySnoc(res, Group(prev, t));
    forall k
      ensures IsGroupKey(res + [Group(prev, t)], k) || Some(s[i][col]) == Some(k) <==> HasKey(s[..i + 1], col, k)
    {
      assert IsGroupKey(res, k) || prev == k <==> HasKey(s[..i], col, k);
    }
  }

  /** Closing the last open group completes the result. */
  lemma ScanClose(s: seq<Row>, col: nat, target: nat, curr: Option<string>, nums: seq<string>, res: seq<Group>, t: real)
    requires Fits(s, col) && Fits(s, target)
    requires ScanInv(s, col, target, |s|, curr, nums, res)
    requires curr.Some? ==> t == CellTotal(nums)
    ensures var out := if curr.Some? then res + [Group(curr.value, t)] else res;
      && Ascending(out)
      && (forall k :: IsGroupKey(out, k) <==> HasKey(s, col, k))
      && (forall g :: g in out ==> g.total == CellTotal(Column(Matching(s, col, g.key), target)))
  {
    assert s[..|s|] == s;
    if curr.Some? {
      IsGroupKeySnoc(res, Group(curr.value, t));
      var out := res + [Group(curr.value, t)];
      assert forall g :: g in out ==> g in res || g == Group(curr.value, t);
    }
  }

  /** Extending the scanned prefix by one row adds that row to its own key's rows only. */
  lemma GroupStep(s: seq<Row>, i: nat, col: nat, target: nat)
    requires i < |s| && Fits(s, col) && Fits(s, target)
    ensures Fits(s[..i], col) && Fits(s[..i + 1], col)
    ensures forall k :: Matching(s[..i + 1], col, k) == Matching(s[..i], col, k) + (if s[i][col] == k then [s[i]] else [])
    ensures forall k :: s[i][col] == k ==>
      Column(Matching(s[..i + 1], col, k), target) == Column(Matching(s[..i], col, k), target) + [s[i][target]]
  {
    assert s[..i + 1] == s[..i] + [s[i]];
    forall k
      ensures Matching(s[..i + 1], col, k) == Matching(s[..i], col, k) + (if s[i][col] == k then [s[i]] else [])
    {
      MatchingSnoc(s[..i], s[i], col, k);
    }
    forall k | s[i][col] == k
      ensures Column(Matching(s[..i + 1], col, k), target) == Column(Matching(s[..i], col, k), target) + [s[i][target]]
    {
      var m := Matching(s[..i], col, k);
      ColumnSnoc(m, s[i], target);
    }
  }

  /** Totals of groups other than the current row's are unaffected by scanning it. */
  lemma TotalsCarry(s: seq<Row>, i: nat, col: nat, target: nat, res: seq<Group>, key: string)
    requires i < |s| && Fits(s, col) && Fits(s, target) && key == s[i][col]
    requires forall g :: g in res ==> g.key != key
    requires forall g :: g in res ==> g.total == CellTotal(Column(Matching(s[..i], col, g.key), target))
    ensures forall g :: g in res ==> g.total == CellTotal(Column(Matching(s[..i + 1], col, g.key), target))
  {
    GroupStep(s, i, col, target);
    forall g | g in res
      ensures Matching(s[..i + 1], col, g.key) == Matching(s[..i], col, g.key)
    {
      assert Matching(s[..i + 1], col, g.key) == Matching(s[..i], col, g.key) + [];
    }
  }

  /** When the scan meets a new key after `prev`, that key is above every key seen so far. */
  lemma CloseGroup(s: seq<Row>, i: nat, col: nat, prev: string, key: string, res: seq<Group>)
    requires 0 < i < |s| && Fits(s, col) && SortedOn(s, col)
    requires prev == s[i - 1][col] && key == s[i][col] && prev != key
    requires forall j :: 0 <= j < i ==> LessEq(s[j][col], prev)
    requires forall g :: g in res ==> Less(g.key, prev)
    ensures Less(prev, key)
    ensures forall j :: 0 <= j < i ==> Less(s[j][col], key) && s[j][col] != key
    ensures forall j :: 0 <= j < i ==> s[..i][j][col] != key
    ensures forall g :: g in res ==> Less(g.key, key) && g.key != key
  {
    assert LessEq(s[i - 1][col], s[i][col]);
    LessIrreflexive(key);
    forall j | 0 <= j < i
      ensures Less(s[j][col], key) && s[j][col] != key
    {
      LessEqLess(s[j][col], prev, key);
    }
    forall g | g in res
      ensures Less(g.key, key) && g.key != key
    {
      LessTransitive(g.key, prev, key);
    }
  }

  /** The sheet of the `get_group_by` test. */
  function TestRows(): seq<Row> {
    [["X", "10"], ["X", "5"]]
  }

  lemma TestRowsTotal()
    ensures Fits(TestRows(), 0) && Fits(TestRows(), 1)
    ensures Matching(TestRows(), 0, "X") == TestRows()
    ensures CellTotal(Column(TestRows(), 1)) == 15.0
  {
    var rows := TestRows();
    assert rows[1..] == [["X", "5"]];
    assert rows[1..][1..] == [];
    assert Column(rows, 1) == ["10", "5"];
    TenExample();
    assert DecimalString(5) == "5";
    ValueOfDecimalString(5);
    assert ["10", "5"][1..] == ["5"];
    assert ["5"][1..] == [];
  }

  /** Any result meeting `GetSum`'s contract on the `get_sum` test's sheet
      `[["10"], ["20"]]`, column 0, is 30. */
  lemma GetSumDetermined(r: Option<real>)
    requires r.None? <==> !InRange([["10"], ["20"]], 0) || forall j :: 0 <= j < 2 ==> !ValidNumber([["10"], ["20"]][j][0])
    requires r.Some? ==> r.value == CellTotal(Column([["10"], ["20"]], 0))
    ensures r == Some(30.0)
  {
    SumTestTotal();
    assert [["10"], ["20"]][0][0] == "10";
  }

  lemma SumTestTotal()
    ensures ValidNumber("10") && CellTotal(Column([["10"], ["20"]], 0)) == 30.0
  {
    TenExample();
    SumTestColumn();
    SumTestCells();
  }

  lemma SumTestColumn()
    ensures Column([["10"], ["20"]], 0) == ["10", "20"]
  {
    var rows := [["10"], ["20"]];
    assert rows[1..] == [["20"]] && rows[1..][1..] == [];
  }

  lemma SumTestCells()
    ensures CellTotal(["10", "20"]) == 30.0
  {
    TenExample();
    TwentyExample();
    assert Contribution("10") == 10.0 && Contribution("20") == 20.0;
    assert CellTotal(["20"]) == 20.0 by {
      assert ["20"][1..] == [];
    }
    assert ["10", "20"][1..] == ["20"];
  }

  /** Any result meeting `GetGroupBy`'s contract on the test sheet grouped on column 0
      is the single group `("X", 15.0)`. */
  lemma GetGroupByDetermined(res: seq<Group>)
    requires Fits(TestRows(), 0) && Fits(TestRows(), 1)
    requires Ascending(res)
    requires forall k :: IsGroupKey(res, k) <==> HasKey(TestRows(), 0, k)
    requires forall g :: g in res ==> g.total == CellTotal(Column(Matching(TestRows(), 0, g.key), 1))
    ensures res == [Group("X", 15.0)]
  {
    var rows := TestRows();
    TestRowsTotal();
    assert HasKey(rows, 0, "X") by {
      assert rows[0][0] == "X";
    }
    assert IsGroupKey(res, "X");
    forall g | g in res
      ensures g.key == "X"
    {
      assert IsGroupKey(res, g.key);
      var j :| 0 <= j < |rows| && rows[j][0] == g.key;
    }
    if |res| >= 2 {
      assert res[0] in res && res[1] in res;
      LessIrreflexive("X");
      assert false;
    }
    assert res[0] in res;
  }
}
