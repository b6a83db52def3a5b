/** The table: rows of equal length and a map from column names to column indices. */
module CsvTable {
  import opened CsvRow
  import opened Results
  import opened Strings

  // ----- The table as a value -----

  datatype Table = Table(rows: seq<seq<Value>>, colCount: nat, header: map<string, nat>)

  datatype Op =
    | Append(row: seq<Value>)
    | SetName(idx: nat, name: string)
    | SetNames(names: seq<string>)
    | EraseColumn(col: nat)
    | EraseNamed(colName: string)
    | EraseRows(first: nat, last: nat)

  const EMPTY := Table([], 0, map[])

  ghost predicate Rectangular(t: Table) {
    forall k | 0 <= k < |t.rows| :: |t.rows[k]| == t.colCount
  }

  ghost predicate Named(header: map<string, nat>, name: string, idx: nat) {
    name in header && header[name] == idx
  }

  ghost predicate HasName(header: map<string, nat>, idx: nat) {
    exists name :: Named(header, name, idx)
  }

  /** A bijection between the names and the indices below `n`. */
  ghost predicate Bijection(header: map<string, nat>, n: nat) {
    && (forall name | name in header :: header[name] < n)
    && (forall a, b | a in header && b in header && header[a] == header[b] :: a == b)
    && forall i | 0 <= i < n :: HasName(header, i)
  }

  /** A table without columns must have no rows either, or the next row would not fit the others. */
  ghost predicate Valid(t: Table) {
    && Rectangular(t)
    && (t.header == map[] || Bijection(t.header, t.colCount))
    && (t.colCount == 0 ==> t.rows == [])
  }

  // ----- What the operations do -----

  predicate BadChar(s: string) {
    ',' in s || '"' in s
  }

  predicate GoodNames(names: seq<string>) {
    && (forall i | 0 <= i < |names| :: names[i] != "" && !BadChar(names[i]))
    && forall i, j | 0 <= i < j < |names| :: names[i] != names[j]
  }

  function TrimAll(names: seq<string>): (r: seq<string>)
    ensures |r| == |names|
  {
    if names == [] then [] else TrimAll(names[..|names| - 1]) + [Trim(names[|names| - 1])]
  }

  function Numbered(names: seq<string>): map<string, nat> {
    if names == [] then map[] else Numbered(names[..|names| - 1])[names[|names| - 1] := |names| - 1]
  }

  /** A row without one cell; in a valid table every row is long enough. */
  function Without(row: seq<Value>, col: nat): seq<Value> {
    if col < |row| then row[..col] + row[col + 1..] else row
  }

  function WithoutColumn(rows: seq<seq<Value>>, col: nat): (r: seq<seq<Value>>)
    ensures |r| == |rows|
  {
    if rows == [] then [] else WithoutColumn(rows[..|rows| - 1], col) + [Without(rows[|rows| - 1], col)]
  }

  /** The names of the other columns, with the indices behind `col` moved up. */
  function Closed(header: map<string, nat>, col: nat): map<string, nat> {
    map name | name in header && header[name] != col ::
      if header[name] > col then header[name] - 1 else header[name]
  }

  function ColumnErased(t: Table, col: nat): Table {
    if col >= t.colCount then t
    else Table(WithoutColumn(t.rows, col), t.colCount - 1, Closed(t.header, col))
  }

  ghost function Renamed(t: Table, idx: nat, name: string): Table {
    var gone := set n | n in t.header && t.header[n] == idx;
    if name == "" || BadChar(name) || name in t.header || gone == {} then t
    else t.(header := (t.header - gone)[name := idx])
  }

  predicate NamesAccepted(t: Table, names: seq<string>) {
    (t.colCount == 0 || |names| == t.colCount) && GoodNames(names)
  }

  ghost function After(t: Table, op: Op): Table {
    match op
    case Append(row) =>
      var n := if t.colCount == 0 then |row| else t.colCount;
      if |row| == n then t.(rows := t.rows + [row], colCount := n) else t
    case SetName(idx, name) => Renamed(t, idx, Trim(name))
    case SetNames(names) =>
      var ns := TrimAll(names);
      if NamesAccepted(t, ns) then
        t.(header := Numbered(ns), colCount := if t.colCount == 0 then |ns| else t.colCount)
      else t
    case EraseColumn(col) => ColumnErased(t, col)
    case EraseNamed(name) => if name in t.header then ColumnErased(t, t.header[name]) else t
    case EraseRows(first, last) =>
      if first <= last <= |t.rows| then t.(rows := t.rows[..first] + t.rows[last..]) else t
  }

  // ----- The invariant -----

  /** The columns the operation erases are not the last one of a table with rows, and the row it appends
      to a table without columns is not empty. */
  ghost predicate Allowed(t: Table, op: Op) {
    match op
    case Append(row) => t.colCount == 0 ==> row != []
    case EraseColumn(col) => t.colCount == 1 && col == 0 ==> t.rows == []
    case EraseNamed(name) => t.colCount == 1 && name in t.header ==> t.rows == []
    case _ => true
  }

  lemma {:induction false} WithoutAt(rows: seq<seq<Value>>, col: nat)
    ensures forall k | 0 <= k < |rows| :: WithoutColumn(rows, col)[k] == Without(rows[k], col)
  {
    hide Without;
    if rows != [] {
      WithoutAt(rows[..|rows| - 1], col);
    }
  }

  lemma {:induction false} NumberedNames(names: seq<string>)
    requires forall i, j | 0 <= i < j < |names| :: names[i] != names[j]
    ensures forall name | name in Numbered(names) :: Numbered(names)[name] < |names| && names[Numbered(names)[name]] == name
    ensures forall i | 0 <= i < |names| :: Named(Numbered(names), names[i], i)
  {
    if names != [] {
      NumberedNames(names[..|names| - 1]);
    }
  }

  lemma ClosedBijection(header: map<string, nat>, n: nat, col: nat)
    requires Bijection(header, n) && col < n
    ensures Bijection(Closed(header, col), n - 1)
  {
    var c := Closed(header, col);
    forall i | 0 <= i < n - 1 ensures HasName(c, i) {
      assert HasName(header, if i < col then i else i + 1);
      var name :| Named(header, name, if i < col then i else i + 1);
      assert Named(c, name, i);
    }
  }

  lemma RenamedBijection(t: Table, idx: nat, name: string)
    requires Bijection(t.header, t.colCount)
    ensures Bijection(Renamed(t, idx, name).header, t.colCount)
  {
    var gone := set n | n in t.header && t.header[n] == idx;
    var h := Renamed(t, idx, name).header;
    if h != t.header {
      forall i | 0 <= i < t.colCount ensures HasName(h, i) {
        assert HasName(t.header, i);
        var n :| Named(t.header, n, i);
        assert Named(h, if i == idx then name else n, i);
      }
    }
  }

  lemma ColumnErasedValid(t: Table, col: nat)
    requires Valid(t)
    ensures Valid(ColumnErased(t, col)) <==> (t.colCount == 1 && col == 0 ==> t.rows == [])
  {
    hide Bijection;
    WithoutAt(t.rows, col);
    if col < t.colCount && t.header != map[] {
      ClosedBijection(t.header, t.colCount, col);
    }
    assert t.header == map[] ==> Closed(t.header, col) == map[];
    assert WithoutColumn(t.rows, col) == [] <==> t.rows == [];
  }

  lemma NamesValid(t: Table, names: seq<string>)
    requires Valid(t)
    ensures Valid(After(t, SetNames(names)))
  {
    hide Trim, TrimAll, BadChar;
    var ns := TrimAll(names);
    if NamesAccepted(t, ns) {
      NumberedNames(ns);
      forall i | 0 <= i < |ns| ensures HasName(Numbered(ns), i) {
        assert Named(Numbered(ns), ns[i], i);
      }
    }
  }

  /** From a valid table, an operation leads to a valid table exactly if it is allowed. */
  lemma StepValid(t: Table, op: Op)
    requires Valid(t)
    ensures Valid(After(t, op)) <==> Allowed(t, op)
  {
    hide Bijection, Trim;
    match op
    case Append(row) =>
      NoColumnsNoNames(t);
    case SetName(idx, name) =>
      if t.header != map[] {
        RenamedBijection(t, idx, Trim(name));
      } else {
        EmptyHeader(t, idx, Trim(name));
      }
    case SetNames(names) =>
      NamesValid(t, names);
    case EraseColumn(col) =>
      ColumnErasedValid(t, col);
    case EraseNamed(name) =>
      if name in t.header {
        BijectionBound(t, name);
        ColumnErasedValid(t, t.header[name]);
      }
    case EraseRows(first, last) =>
  }

  lemma EmptyHeader(t: Table, idx: nat, name: string)
    requires t.header == map[]
    ensures Renamed(t, idx, name) == t
  {
    hide BadChar;
  }

  lemma NoColumnsNoNames(t: Table)
    requires Valid(t)
    ensures t.colCount == 0 ==> t.header == map[]
  {
    assert forall name | name in t.header :: t.header[name] < t.colCount;
    assert t.colCount == 0 ==> t.header.Keys == {};
  }

  lemma BijectionBound(t: Table, name: string)
    requires Valid(t) && name in t.header
    ensures t.header[name] < t.colCount
  {
  }

  ghost function Run(t: Table, ops: seq<Op>): Table
    decreases |ops|
  {
    if ops == [] then t else Run(After(t, ops[0]), ops[1..])
  }

  ghost predicate AllAllowed(t: Table, ops: seq<Op>)
    decreases |ops|
  {
    ops == [] || (Allowed(t, ops[0]) && AllAllowed(After(t, ops[0]), ops[1..]))
  }

  /** Every sequence of allowed operations keeps the table rectangular and its names a bijection. */
  lemma {:induction false} RunValid(t: Table, ops: seq<Op>)
    requires Valid(t) && AllAllowed(t, ops)
    ensures Valid(Run(t, ops))
    decreases |ops|
  {
    hide After, Allowed, Valid;
    if ops != [] {
      StepValid(t, ops[0]);
      RunValid(After(t, ops[0]), ops[1..]);
    }
  }

  /** After an operation that is not allowed, appending any non-empty row gives rows of different lengths. */
  lemma NotAllowedBreaks(t: Table, op: Op, row: seq<Value>)
    requires Valid(t) && !Allowed(t, op) && row != []
    ensures !Rectangular(After(After(t, op), Append(row)))
  {
    hide Bijection;
    var u := After(t, op);
    assert u.colCount == 0 && u.rows != [] && u.rows[0] == [] by {
      if op.EraseColumn? || op.EraseNamed? {
        if op.EraseNamed? {
          BijectionBound(t, op.colName);
        }
        WithoutAt(t.rows, 0);
        assert |t.rows[0]| == 1;
      }
    }
    var v := After(u, Append(row));
    assert v.rows[0] == u.rows[0] && v.colCount == |row|;
  }

  // ----- What a name selects -----

  predicate Selects(t: Table, k: nat, name: string) {
    k < |t.rows| && name in t.header && t.header[name] < |t.rows[k]|
  }

  /** `get` by column name. */
  function Cell(t: Table, k: nat, name: string): Value
    requires Selects(t, k, name)
  {
    t.rows[k][t.header[name]]
  }

  /** The names of `u` select in the rows of `t` what they select in `t`. */
  ghost predicate KeepsCells(t: Table, u: Table) {
    && |t.rows| <= |u.rows|
    && (forall name | name in u.header :: name in t.header)
    && forall name, k | name in u.header && 0 <= k < |t.rows| ::
        Selects(t, k, name) && Selects(u, k, name) && Cell(u, k, name) == Cell(t, k, name)
  }

  lemma ErasedCell(t: Table, col: nat, name: string, k: nat)
    requires Valid(t) && col < t.colCount && name in Closed(t.header, col) && k < |t.rows|
    ensures var u := ColumnErased(t, col);
      name in t.header && Selects(t, k, name) && Selects(u, k, name) && Cell(u, k, name) == Cell(t, k, name)
  {
    BijectionBound(t, name);
    WithoutAt(t.rows, col);
    assert |t.rows[k]| == t.colCount;
  }

  /** After erasing a column every other name selects the same cells, and only the name of the column is gone. */
  lemma SurvivorsKeepCells(t: Table, col: nat)
    requires Valid(t)
    ensures KeepsCells(t, ColumnErased(t, col))
    ensures forall name | name in t.header :: name in ColumnErased(t, col).header <==> t.header[name] != col
  {
    hide Bijection, Cell, Selects;
    if col < t.colCount {
      var u := ColumnErased(t, col);
      forall name, k | name in u.header && 0 <= k < |t.rows|
        ensures Selects(t, k, name) && Selects(u, k, name) && Cell(u, k, name) == Cell(t, k, name)
      {
        ErasedCell(t, col, name, k);
      }
    } else {
      AllSelect(t);
    }
    forall name | name in t.header ensures t.header[name] < t.colCount {
      BijectionBound(t, name);
    }
  }

  lemma AllSelect(t: Table)
    requires Valid(t)
    ensures forall name, k | name in t.header && 0 <= k < |t.rows| :: Selects(t, k, name)
  {
    forall name | name in t.header ensures t.header[name] < t.colCount {
      BijectionBound(t, name);
    }
  }

  lemma AppendKeepsCells(t: Table, row: seq<Value>)
    requires Valid(t)
    ensures KeepsCells(t, After(t, Append(row)))
  {
    hide Bijection, Valid;
    AllSelect(t);
    var u := After(t, Append(row));
    forall name, k | name in u.header && 0 <= k < |t.rows|
      ensures Selects(t, k, name) && Selects(u, k, name) && Cell(u, k, name) == Cell(t, k, name)
    {
      assert u.rows[k] == t.rows[k];
    }
  }

  lemma KeepsCellsTransitive(t: Table, u: Table, v: Table)
    requires KeepsCells(t, u) && KeepsCells(u, v)
    ensures KeepsCells(t, v)
  {
    hide Selects, Cell;
  }

  /** Over any run of appending rows and erasing columns, a name that is still there selects in the old
      rows the cells it selected at the start. */
  lemma {:induction false} NamesFollowColumns(t: Table, ops: seq<Op>)
    requires Valid(t) && AllAllowed(t, ops)
    requires forall op | op in ops :: op.Append? || op.EraseColumn? || op.EraseNamed?
    ensures KeepsCells(t, Run(t, ops))
    decreases |ops|
  {
    hide After, Allowed, Valid, KeepsCells;
    if ops == [] {
      SameKeepsCells(t);
    } else {
      var u := After(t, ops[0]);
      assert ops[0] in ops;
      OneKeepsCells(t, ops[0]);
      StepValid(t, ops[0]);
      NamesFollowColumns(u, ops[1..]);
      KeepsCellsTransitive(t, u, Run(u, ops[1..]));
    }
  }

  lemma SameKeepsCells(t: Table)
    requires Valid(t)
    ensures KeepsCells(t, t)
  {
    AllSelect(t);
  }

  lemma OneKeepsCells(t: Table, op: Op)
    requires Valid(t) && (op.Append? || op.EraseColumn? || op.EraseNamed?)
    ensures KeepsCells(t, After(t, op))
  {
    hide Valid, KeepsCells, ColumnErased;
    SameKeepsCells(t);
    match op
    case Append(row) => AppendKeepsCells(t, row);
    case EraseColumn(col) => SurvivorsKeepCells(t, col);
    case EraseNamed(name) =>
      if name in t.header {
        SurvivorsKeepCells(t, t.header[name]);
      }
  }

  /** An accepted list of names lets the name number `i` select the cells of column `i`. */
  lemma NamesSelectColumns(t: Table, names: seq<string>, i: nat, k: nat)
    requires Valid(t) && NamesAccepted(t, TrimAll(names)) && i < |names| && k < |t.rows|
    ensures var (u, name) := (After(t, SetNames(names)), TrimAll(names)[i]);
      i < |t.rows[k]| && Selects(u, k, name) && Cell(u, k, name) == t.rows[k][i]
  {
    hide Bijection, Trim, TrimAll, BadChar;
    NumberedNames(TrimAll(names));
    assert Named(Numbered(TrimAll(names)), TrimAll(names)[i], i);
  }

  /** A renamed column keeps its cells under the new name, and the other names stay where they are. */
  lemma RenamedKeepsColumns(t: Table, idx: nat, newName: string, k: nat)
    requires Valid(t) && After(t, SetName(idx, newName)) != t && k < |t.rows|
    ensures var (u, name) := (After(t, SetName(idx, newName)), Trim(newName));
      && idx < |t.rows[k]| && Selects(u, k, name) && Cell(u, k, name) == t.rows[k][idx]
      && (forall n | n in u.header && n != name :: Named(t.header, n, u.header[n]))
      && forall n | n in t.header && t.header[n] != idx :: Named(u.header, n, t.header[n])
  {
    hide Trim, BadChar;
    var n :| n in t.header && t.header[n] == idx;
    BijectionBound(t, n);
  }

  // ----- The class -----

  class CsvTable {
    var rows: seq<seq<Value>>
    var colCount: nat
    var header: map<string, nat>

    ghost function State(): Table
      reads this
    {
      Table(rows, colCount, header)
    }

    constructor ()
      ensures State() == EMPTY && Valid(State())
    {
      rows, colCount, header := [], 0, map[];
    }

    method Add(row: seq<Value>) returns (ok: bool)
      modifies this
      ensures State() == After(old(State()), Append(row))
      ensures ok <==> old(colCount) == 0 || |row| == old(colCount)
    {
      if colCount == 0 {
        colCount := |row|;
      }
      if |row| != colCount {
        return false;
      }
      rows := rows + [row];
      return true;
    }

    /** `std::find_if` over the map, in whatever order its entries come. */
    method FindHeader(idx: nat) returns (r: Option<string>)
      ensures r.Some? ==> Named(header, r.value, idx)
      ensures r.None? ==> forall name | name in header :: header[name] != idx
    {
      var left := header.Keys;
      while left != {}
        invariant left <= header.Keys
        invariant forall name | name in header && name !in left :: header[name] != idx
      {
        var name :| name in left;
        if header[name] == idx {
          return Some(name);
        }
        left := left - {name};
      }
      return None;
    }

    method SetHeaderAt(idx: nat, newHeader: string) returns (ok: bool)
      requires Valid(State())
      modifies this
      ensures State() == After(old(State()), SetName(idx, newHeader))
      ensures ok <==> State() != old(State())
    {
      hide Trim, BadChar, Bijection;
      var s := Trim(newHeader);
      if s == "" || BadChar(s) || s in header {
        return false;
      }
      var found := FindHeader(idx);
      ghost var t := State();
      OneOldName(t, idx);
      if found.None? {
        return false;
      }
      header := header - {found.value};
      header := header[s := idx];
      return true;
    }

    method SetHeaders(headers: seq<string>) returns (ok: bool)
      modifies this
      ensures State() == After(old(State()), SetNames(headers))
      ensures ok <==> NamesAccepted(old(State()), TrimAll(headers))
    {
      hide Trim, NamesAccepted, Numbered;
      var v: seq<string> := [];
      assert headers[..0] == [];
      for i := 0 to |headers|
        invariant v == TrimAll(headers[..i])
        invariant State() == old(State())
      {
        assert headers[..i + 1][..i] == headers[..i];
        v := v + [Trim(headers[i])];
      }
      assert headers[..|headers|] == headers;
      ok := SetHeaderTrimmed(v);
    }

    method SetHeaderTrimmed(headers: seq<string>) returns (ok: bool)
      modifies this
      ensures ok <==> NamesAccepted(old(State()), headers)
      ensures State() == if !ok then old(State()) else old(State()).(
        header := Numbered(headers), colCount := if old(colCount) == 0 then |headers| else old(colCount))
    {
      hide BadChar;
      if colCount > 0 && |headers| != colCount {
        return false;
      }
      for i := 0 to |headers|
        invariant forall k | 0 <= k < i :: headers[k] != "" && !BadChar(headers[k])
        invariant forall k, m | 0 <= k < i && k < m < |headers| :: headers[k] != headers[m]
        invariant State() == old(State())
      {
        var hdr := headers[i];
        if hdr == "" {
          return false;
        }
        if hdr in headers[i + 1..] {
          return false;
        }
        assert forall m | i < m < |headers| :: headers[i + 1..][m - i - 1] == headers[m];
        if BadChar(hdr) {
          return false;
        }
      }
      header := map[];
      assert headers[..0] == [];
      for idx := 0 to |headers|
        invariant header == Numbered(headers[..idx])
        invariant rows == old(rows) && colCount == old(colCount)
      {
        assert headers[..idx + 1][..idx] == headers[..idx];
        header := header[headers[idx] := idx];
      }
      assert headers[..|headers|] == headers;
      if colCount == 0 {
        colCount := |headers|;
      }
      return true;
    }

    /** Erases the column in every row, drops its name and moves the later indices up one by one. */
    method EraseColumnAt(colIdx: nat) returns (ok: bool)
      requires Valid(State())
      modifies this
      ensures State() == After(old(State()), EraseColumn(colIdx))
      ensures ok <==> colIdx < old(colCount)
    {
      hide Bijection, Without;
      if colCount == 0 {
        return false;
      }
      if colIdx >= colCount {
        return false;
      }
      EraseCells(colIdx);
      if header != map[] {
        MoveHeaders(colIdx);
      }
      assert old(header) == map[] ==> header == Closed(old(header), colIdx);
      colCount := colCount - 1;
      return true;
    }

    method EraseCells(colIdx: nat)
      requires forall k | 0 <= k < |rows| :: colIdx < |rows[k]|
      modifies this`rows
      ensures rows == WithoutColumn(old(rows), colIdx)
    {
      var all := rows;
      for k := 0 to |all|
        invariant |rows| == |all|
        invariant rows[..k] == WithoutColumn(all[..k], colIdx)
        invariant rows[k..] == all[k..]
      {
        assert all[..k + 1][..k] == all[..k];
        assert rows[k] == rows[k..][0] && all[k] == all[k..][0];
        var row := rows[k];
        ghost var was := rows;
        rows := rows[k := row[..colIdx] + row[colIdx + 1..]];
        assert rows[..k + 1] == was[..k] + [Without(row, colIdx)];
        assert rows[k + 1..] == was[k..][1..] && all[k + 1..] == all[k..][1..];
      }
      assert all[..|all|] == all && rows[..|all|] == rows;
    }

    method MoveHeaders(colIdx: nat)
      requires Bijection(header, colCount) && colIdx < colCount
      modifies this`header
      ensures header == Closed(old(header), colIdx)
    {
      hide Bijection;
      ghost var was := header;
      var found := FindHeader(colIdx);
      NameOf(was, colCount, colIdx);
      header := header - {found.value};
      FirstMove(was, colCount, colIdx, found.value);
      for idx := colIdx + 1 to colCount
        invariant header == Moving(was, colIdx, idx)
      {
        found := FindHeader(idx);
        NextMove(was, colCount, colIdx, idx);
        header := header[found.value := idx - 1];
        MoveOne(was, colCount, colIdx, idx, found.value);
      }
      LastMove(was, colCount, colIdx);
    }

    method EraseColumnNamed(colName: string) returns (ok: bool)
      requires Valid(State())
      modifies this
      ensures State() == After(old(State()), EraseNamed(colName))
      ensures ok <==> colName in old(header)
    {
      if header == map[] {
        return false;
      }
      if colName !in header {
        return false;
      }
      BijectionBound(State(), colName);
      ok := EraseColumnAt(header[colName]);
    }

    method Erase(first: nat, last: nat)
      requires first <= last <= |rows|
      modifies this`rows
      ensures State() == After(old(State()), EraseRows(first, last))
    {
      rows := rows[..first] + rows[last..];
    }
  }

  /** The map while the indices below `idx` have been moved. */
  ghost function Moving(header: map<string, nat>, col: nat, idx: nat): map<string, nat> {
    map name | name in header && header[name] != col ::
      if col < header[name] < idx then header[name] - 1 else header[name]
  }

  lemma OneOldName(t: Table, idx: nat)
    requires Valid(t)
    ensures forall name | Named(t.header, name, idx) :: (set n | n in t.header && t.header[n] == idx) == {name}
  {
  }

  lemma NameOf(header: map<string, nat>, n: nat, idx: nat)
    requires Bijection(header, n) && idx < n
    ensures HasName(header, idx)
  {
  }

  lemma FirstMove(header: map<string, nat>, n: nat, col: nat, name: string)
    requires Bijection(header, n) && Named(header, name, col)
    ensures header - {name} == Moving(header, col, col + 1)
  {
  }

  lemma NextMove(header: map<string, nat>, n: nat, col: nat, idx: nat)
    requires Bijection(header, n) && col < idx < n
    ensures HasName(Moving(header, col, idx), idx)
  {
    assert HasName(header, idx);
    var name :| Named(header, name, idx);
    assert Named(Moving(header, col, idx), name, idx);
  }

  lemma MoveOne(header: map<string, nat>, n: nat, col: nat, idx: nat, name: string)
    requires Bijection(header, n) && col < idx < n && Named(Moving(header, col, idx), name, idx)
    ensures Moving(header, col, idx)[name := idx - 1] == Moving(header, col, idx + 1)
  {
  }

  lemma LastMove(header: map<string, nat>, n: nat, col: nat)
    requires Bijection(header, n) && col < n
    ensures Moving(header, col, n) == Closed(header, col)
  {
  }
}
