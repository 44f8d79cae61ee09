/** Column-wise masking of a page against masking the row as an object. */
module PageMasks {
  import opened Bytes
  import opened Masking
  import opened Paging
  import opened Visibility

  /** The replacement of the last operation at the column or at the whole value. */
  function LastMatch(ops: seq<Op>, column: string): Option<Value> {
    if ops == [] then None
    else if ops[|ops| - 1].path <= [column] then Some(ops[|ops| - 1].replacement)
    else LastMatch(ops[..|ops| - 1], column)
  }

  lemma {:induction false} LastMatchJoins(first: seq<Op>, second: seq<Op>, column: string)
    ensures LastMatch(first + second, column) ==
            if LastMatch(second, column).Some? then LastMatch(second, column) else LastMatch(first, column)
  {
    if second == [] {
      assert first + second == first;
    } else {
      var n := |second| - 1;
      assert (first + second)[..|first| + n] == first + second[..n];
      LastMatchJoins(first, second[..n], column);
    }
  }

  lemma {:induction false} PolicyMatch(mask: Mask, column: string, n: nat)
    requires n <= |mask.paths|
    ensures LastMatch(PolicyOps(mask)[..n], column) ==
            if exists i :: 0 <= i < n && mask.paths[i] <= [column] then Some(mask.replacement) else None
  {
    if n > 0 {
      assert PolicyOps(mask)[..n][..n - 1] == PolicyOps(mask)[..n - 1];
      PolicyMatch(mask, column, n - 1);
    }
  }

  /** Choosing a replacement mask by mask, from the last, is taking the last matching operation. */
  lemma {:induction false} ReplacementIsLastMatch(masks: seq<Mask>, resource: Resource, column: string)
    ensures Replacement(MasksFor(masks, resource), column) == LastMatch(OpsFor(masks, resource), column)
  {
    if masks != [] {
      var n := |masks| - 1;
      var rest, last := masks[..n], masks[n];
      ReplacementIsLastMatch(rest, resource, column);
      if last.resource == resource {
        assert MasksFor(masks, resource)[..|MasksFor(masks, resource)| - 1] == MasksFor(rest, resource);
        PolicyMatch(last, column, |last.paths|);
        assert PolicyOps(last)[..|last.paths|] == PolicyOps(last);
        LastMatchJoins(OpsFor(rest, resource), PolicyOps(last), column);
      } else {
        assert MasksFor(masks, resource) == MasksFor(rest, resource);
        assert OpsFor(masks, resource) == OpsFor(rest, resource);
      }
    }
  }

  predicate NoEmptyPath(ops: seq<Op>) {
    forall i :: 0 <= i < |ops| ==> ops[i].path != []
  }

  /** Without an operation on the whole value, an object keeps its fields and anything else stays. */
  lemma {:induction false} ApplyKeepsShape(value: Value, ops: seq<Op>)
    requires NoEmptyPath(ops)
    ensures !value.Object? ==> Apply(value, ops) == value
    ensures value.Object? ==> Apply(value, ops).Object? && Apply(value, ops).fields.Keys == value.fields.Keys
  {
    if ops != [] {
      ApplyKeepsShape(value, ops[..|ops| - 1]);
    }
  }

  /** A field ends up with its last replacement, if that is a scalar, or with its own scalar. */
  lemma {:induction false} FieldAfter(value: Value, ops: seq<Op>, column: string)
    requires NoEmptyPath(ops) && value.Object? && column in value.fields
    ensures Apply(value, ops).Object? && column in Apply(value, ops).fields
    ensures var field := Apply(value, ops).fields[column];
            match LastMatch(ops, column)
            case Some(replacement) => Scalar(replacement) ==> field == replacement
            case None => Scalar(value.fields[column]) ==> field == value.fields[column]
  {
    ApplyKeepsShape(value, ops);
    if ops != [] {
      var n := |ops| - 1;
      FieldAfter(value, ops[..n], column);
      assert NoEmptyPath(ops[..n]);
      ReplaceField(Apply(value, ops[..n]), ops[n].path, ops[n].replacement, column);
      assert ops[n].path <= [column] <==> ops[n].path == [column];
    }
  }

  /** What one replacement does to one field. */
  lemma ReplaceField(value: Value, path: Path, replacement: Value, column: string)
    requires path != [] && value.Object? && column in value.fields
    ensures var after := ReplacePath(value, path, replacement);
            && after.Object? && column in after.fields
            && (path == [column] ==> after.fields[column] == replacement)
            && (path != [column] && Scalar(value.fields[column]) ==> after.fields[column] == value.fields[column])
  {
    if path[0] == column {
      assert path == [column] + path[1..];
    }
  }

  predicate ScalarRow(row: Row) {
    forall i :: 0 <= i < |row| ==> Scalar(row[i])
  }

  /** A page with these operations is not refused. */
  predicate Acceptable(ops: seq<Op>, columns: seq<string>) {
    forall i :: 0 <= i < |columns| ==> match LastMatch(ops, columns[i]) case None => true case Some(r) => Scalar(r)
  }

  function PageRow(ops: seq<Op>, columns: seq<string>, row: Row): (masked: Row)
    ensures |masked| == |row|
  {
    seq(|row|, i requires 0 <= i < |row| =>
      if i < |columns| && LastMatch(ops, columns[i]).Some? then LastMatch(ops, columns[i]).value else row[i])
  }

  /** The fields of a masked row: the last match of each column, or what the column held. */
  lemma {:induction false} PageFields(ops: seq<Op>, columns: seq<string>, row: Row, width: nat)
    requires width <= |columns| && width <= |row|
    ensures var before, after := RowFields(columns, row, width), RowFields(columns, PageRow(ops, columns, row), width);
            && after.Keys == before.Keys
            && forall c :: c in after ==>
                 after[c] == if LastMatch(ops, c).Some? then LastMatch(ops, c).value else before[c]
  {
    hide LastMatch;
    if width > 0 {
      PageFields(ops, columns, row, width - 1);
    }
  }

  lemma {:induction false} FieldsFromRow(columns: seq<string>, row: Row, width: nat)
    requires width <= |columns| && width <= |row|
    ensures forall c :: c in RowFields(columns, row, width) ==> c in columns && RowFields(columns, row, width)[c] in row
  {
    if width > 0 {
      FieldsFromRow(columns, row, width - 1);
    }
  }

  /** Where the last operation on the whole value stands. */
  function LastEmpty(ops: seq<Op>): Option<nat> {
    if ops == [] then None
    else if ops[|ops| - 1].path == [] then Some(|ops| - 1)
    else LastEmpty(ops[..|ops| - 1])
  }

  lemma {:induction false} LastEmptyIsLast(ops: seq<Op>)
    ensures LastEmpty(ops).None? ==> NoEmptyPath(ops)
    ensures LastEmpty(ops).Some? ==>
      var k := LastEmpty(ops).value;
      k < |ops| && ops[k].path == [] && NoEmptyPath(ops[k + 1..])
  {
    if ops != [] && ops[|ops| - 1].path != [] {
      var n := |ops| - 1;
      LastEmptyIsLast(ops[..n]);
      if LastEmpty(ops).Some? {
        var k := LastEmpty(ops).value;
        assert ops[k + 1..] == ops[..n][k + 1..] + [ops[n]];
      } else {
        assert ops == ops[..n] + [ops[n]];
      }
    }
  }

  /** The masked object starts over at the last operation on the whole value. */
  lemma AfterLastEmpty(value: Value, ops: seq<Op>, k: nat, column: string)
    requires k < |ops| && ops[k].path == []
    ensures Apply(value, ops) == Apply(ops[k].replacement, ops[k + 1..])
    ensures LastMatch(ops, column) ==
            if LastMatch(ops[k + 1..], column).Some? then LastMatch(ops[k + 1..], column) else Some(ops[k].replacement)
  {
    assert ops[..k + 1][..k] == ops[..k];
    assert ops == ops[..k + 1] + ops[k + 1..];
    ApplyJoins(value, ops[..k + 1], ops[k + 1..]);
    LastMatchJoins(ops[..k + 1], ops[k + 1..], column);
  }

  /** The condition under which the two forms agree. */
  predicate Agreeable(ops: seq<Op>, columns: seq<string>, row: Row) {
    match LastEmpty(ops)
    case None => true
    case Some(k) =>
      k < |ops| && ops[k].replacement.Object? && ops[k].replacement.fields.Keys == RowObject(columns, row).fields.Keys
  }

  lemma AgreeWithoutEmpty(ops: seq<Op>, columns: seq<string>, row: Row)
    requires ScalarRow(row) && Acceptable(ops, columns) && NoEmptyPath(ops)
    ensures RowObject(columns, PageRow(ops, columns, row)) == Apply(RowObject(columns, row), ops)
  {
    hide LastMatch, Apply;
    var width, value := Width(columns, row), RowObject(columns, row);
    PageFields(ops, columns, row, width);
    FieldsFromRow(columns, row, width);
    ApplyKeepsShape(value, ops);
    forall c | c in value.fields
      ensures Apply(value, ops).fields[c] == RowObject(columns, PageRow(ops, columns, row)).fields[c]
    {
      FieldAfter(value, ops, c);
    }
    assert Apply(value, ops).fields == RowObject(columns, PageRow(ops, columns, row)).fields;
  }

  lemma AgreeAfterEmpty(ops: seq<Op>, columns: seq<string>, row: Row, k: nat)
    requires Acceptable(ops, columns) && k < |ops| && ops[k].path == [] && NoEmptyPath(ops[k + 1..])
    requires ops[k].replacement.Object? && ops[k].replacement.fields.Keys == RowObject(columns, row).fields.Keys
    ensures RowObject(columns, PageRow(ops, columns, row)) == Apply(RowObject(columns, row), ops)
  {
    hide LastMatch, Apply;
    var width, value := Width(columns, row), RowObject(columns, row);
    var anew, later := ops[k].replacement, ops[k + 1..];
    AfterLastEmpty(value, ops, k, "");
    PageFields(ops, columns, row, width);
    FieldsFromRow(columns, row, width);
    ApplyKeepsShape(anew, later);
    forall c | c in value.fields
      ensures Apply(anew, later).fields[c] == RowObject(columns, PageRow(ops, columns, row)).fields[c]
    {
      AfterLastEmpty(value, ops, k, c);
      FieldAfter(anew, later, c);
    }
    assert Apply(anew, later).fields == RowObject(columns, PageRow(ops, columns, row)).fields;
  }

  /**
    On an accepted page of scalar cells, masking column by column gives the row that masking
    the row as an object gives, exactly when no operation is on the whole value, or the last
    such operation puts in an object with the row's own columns.
  */
  lemma ColumnsAgreeWithObject(ops: seq<Op>, columns: seq<string>, row: Row)
    requires ScalarRow(row) && Acceptable(ops, columns)
    ensures RowObject(columns, PageRow(ops, columns, row)) == Apply(RowObject(columns, row), ops)
            <==> Agreeable(ops, columns, row)
  {
    hide LastMatch, Apply, Acceptable, ScalarRow;
    LastEmptyIsLast(ops);
    if LastEmpty(ops).None? {
      AgreeWithoutEmpty(ops, columns, row);
    } else {
      var k := LastEmpty(ops).value;
      if Agreeable(ops, columns, row) {
        AgreeAfterEmpty(ops, columns, row, k);
      } else {
        AfterLastEmpty(RowObject(columns, row), ops, k, "");
        ApplyKeepsShape(ops[k].replacement, ops[k + 1..]);
        PageFields(ops, columns, row, Width(columns, row));
      }
    }
  }

  /** A mask on the whole value that puts in a scalar: the page masks every column, the object is gone. */
  lemma EmptyPathDisagrees(columns: seq<string>, row: Row)
    requires ScalarRow(row)
    ensures var ops := [Op([], Str("***"))];
            RowObject(columns, PageRow(ops, columns, row)) != Apply(RowObject(columns, row), ops)
  {
    var ops := [Op([], Str("***"))];
    assert Acceptable(ops, columns);
    ColumnsAgreeWithObject(ops, columns, row);
  }

  /** The page code's choice per column is the last matching operation, so its rows are these rows. */
  lemma PageRowIsMaskRow(masks: seq<Mask>, resource: Resource, columns: seq<string>, row: Row)
    ensures var replacements := Replacements(MasksFor(masks, resource), columns);
            && MaskRow(row, replacements) == PageRow(OpsFor(masks, resource), columns, row)
            && (AllScalar(replacements) <==> Acceptable(OpsFor(masks, resource), columns))
  {
    hide LastMatch, Replacement, MasksFor, OpsFor;
    forall i | 0 <= i < |columns|
      ensures Replacement(MasksFor(masks, resource), columns[i]) == LastMatch(OpsFor(masks, resource), columns[i])
    {
      ReplacementIsLastMatch(masks, resource, columns[i]);
    }
    var replacements := Replacements(MasksFor(masks, resource), columns);
    assert forall i :: 0 <= i < |columns| ==> replacements[i] == LastMatch(OpsFor(masks, resource), columns[i]);
  }

  /** Every row a page shows is the masked object of a visible row. */
  lemma ShownRowsAreMasked(table: Table, policy: Policy, principal: string, resource: Resource, i: nat)
    requires Shown(table, policy, principal, resource).Ok? && !Unrestricted(policy, resource)
    requires var visible := VisibleRows(policy, principal, resource, table.columns.value, table.rows);
             i < |visible| && ScalarRow(visible[i])
             && Agreeable(OpsFor(policy.masks, resource), table.columns.value, visible[i])
    ensures var shown := Shown(table, policy, principal, resource).rows;
            var visible := VisibleRows(policy, principal, resource, table.columns.value, table.rows);
            && |shown| == |visible|
            && RowObject(table.columns.value, shown[i]) ==
               Apply(RowObject(table.columns.value, visible[i]), OpsFor(policy.masks, resource))
  {
    hide VisibleRows, Apply, Agreeable, Acceptable, ScalarRow, RowObject, MasksFor, OpsFor, PageRow, MaskRow, HasRowPolicy;
    var columns := table.columns.value;
    var row := VisibleRows(policy, principal, resource, columns, table.rows)[i];
    PageRowIsMaskRow(policy.masks, resource, columns, row);
    ColumnsAgreeWithObject(OpsFor(policy.masks, resource), columns, row);
  }

  // ---------------------------------------------------------------------------------------
  // Walking all pages
  // ---------------------------------------------------------------------------------------

  /** The positions, in ascending order, of exactly the rows a test admits. */
  ghost predicate Selects(positions: seq<nat>, size: nat, admitted: nat -> bool) {
    && (forall i, j :: 0 <= i < j < |positions| ==> positions[i] < positions[j])
    && (forall n: nat :: n in positions <==> n < size && admitted(n))
  }

  ghost function RowTest(table: Table, policy: Policy, principal: string, resource: Resource): nat -> bool {
    (n: nat) => n < |table.rows| && table.columns.Some? &&
      Admits(policy.rows, principal, resource, RowObject(table.columns.value, table.rows[n]))
  }

  ghost function DocumentTest(policy: Policy, principal: string, resource: Resource, documents: seq<Value>): nat -> bool {
    (n: nat) => n < |documents| && Admits(policy.rows, principal, resource, documents[n])
  }

  lemma SelectsNothing(admitted: nat -> bool)
    ensures Selects([], 0, admitted)
  {
  }

  /** One more row: its position is taken when the test admits it. */
  lemma SelectsMore(positions: seq<nat>, size: nat, admitted: nat -> bool)
    requires Selects(positions, size, admitted)
    ensures Selects(if admitted(size) then positions + [size] else positions, size + 1, admitted)
  {
    forall i | 0 <= i < |positions| ensures positions[i] < size {
      assert positions[i] in positions;
    }
  }

  /** The visible rows stand at the positions of exactly the rows that are visible. */
  lemma {:induction false} VisibleAt(
    table: Table, policy: Policy, principal: string, resource: Resource, size: nat) returns (positions: seq<nat>)
    requires table.columns.Some? && size <= |table.rows|
    ensures Selects(positions, size, RowTest(table, policy, principal, resource))
    ensures var visible := VisibleRows(policy, principal, resource, table.columns.value, table.rows[..size]);
            |positions| == |visible| && forall i :: 0 <= i < |positions| ==>
              positions[i] < size && visible[i] == table.rows[positions[i]]
  {
    hide RowVisible, RowObject, Selects, Admits;
    var test := RowTest(table, policy, principal, resource);
    if size == 0 {
      positions := [];
      SelectsNothing(test);
    } else {
      var n := size - 1;
      assert table.rows[..size][..n] == table.rows[..n];
      var before := VisibleAt(table, policy, principal, resource, n);
      VisibleExactly(policy, principal, resource, RowObject(table.columns.value, table.rows[n]));
      SelectsMore(before, n, test);
      positions := if test(n) then before + [n] else before;
    }
  }

  lemma {:induction false} DocumentsAt(
    policy: Policy, principal: string, resource: Resource, documents: seq<Value>, size: nat) returns (positions: seq<nat>)
    requires size <= |documents|
    ensures Selects(positions, size, DocumentTest(policy, principal, resource, documents))
    ensures var visible := VisibleDocuments(policy, principal, resource, documents[..size]);
            |positions| == |visible| && forall i :: 0 <= i < |positions| ==>
              positions[i] < size && visible[i] == documents[positions[i]]
  {
    hide RowVisible, Selects, Admits;
    var test := DocumentTest(policy, principal, resource, documents);
    if size == 0 {
      positions := [];
      SelectsNothing(test);
    } else {
      var n := size - 1;
      assert documents[..size][..n] == documents[..n];
      var before := DocumentsAt(policy, principal, resource, documents, n);
      VisibleExactly(policy, principal, resource, documents[n]);
      SelectsMore(before, n, test);
      positions := if test(n) then before + [n] else before;
    }
  }

  /**
    Walking a table under policies: following the offsets shows each visible row once and in
    order, and no other, each cell under a column masked by the last match of that column and
    every other cell as it is; a row of scalars is shown as its masked object, exactly when no path
    is empty or the last empty one puts in an object with the row's columns.
  */
  lemma TableWalkIsExact(
    table: Table, policy: Policy, principal: string, resource: Resource, limits: nat -> Option<nat>)
    returns (positions: seq<nat>)
    requires Shown(table, policy, principal, resource).Ok? && !Unrestricted(policy, resource)
    ensures Selects(positions, |table.rows|, RowTest(table, policy, principal, resource))
    ensures var walk, columns := Walk(Shown(table, policy, principal, resource).rows, 0, limits, 0), table.columns.value;
            var ops := OpsFor(policy.masks, resource);
            && |walk| == |positions|
            && forall i :: 0 <= i < |walk| ==>
                 && positions[i] < |table.rows|
                 && var row := table.rows[positions[i]];
                    && walk[i] == PageRow(ops, columns, row)
                    && (ScalarRow(row) ==>
                          (RowObject(columns, walk[i]) == Apply(RowObject(columns, row), ops) <==> Agreeable(ops, columns, row)))
  {
    hide VisibleRows, Apply, Agreeable, Acceptable, ScalarRow, RowObject, MasksFor, OpsFor, PageRow, MaskRow, HasRowPolicy,
      Walk, Selects, RowTest;
    var columns, ops := table.columns.value, OpsFor(policy.masks, resource);
    var shown, visible := Shown(table, policy, principal, resource).rows,
      VisibleRows(policy, principal, resource, columns, table.rows);
    WalkIsExact(shown, 0, limits, 0);
    assert shown[0..] == shown && table.rows[..|table.rows|] == table.rows;
    positions := VisibleAt(table, policy, principal, resource, |table.rows|);
    forall i | 0 <= i < |shown|
      ensures shown[i] == PageRow(ops, columns, visible[i])
      ensures ScalarRow(visible[i]) ==>
        (RowObject(columns, shown[i]) == Apply(RowObject(columns, visible[i]), ops) <==> Agreeable(ops, columns, visible[i]))
    {
      PageRowIsMaskRow(policy.masks, resource, columns, visible[i]);
      if ScalarRow(visible[i]) {
        ColumnsAgreeWithObject(ops, columns, visible[i]);
      }
    }
  }

  /** Without policies the walk shows the table as it is. */
  lemma UnrestrictedWalkIsExact(
    table: Table, policy: Policy, principal: string, resource: Resource, limits: nat -> Option<nat>)
    requires Unrestricted(policy, resource)
    ensures Shown(table, policy, principal, resource).Ok?
    ensures Walk(Shown(table, policy, principal, resource).rows, 0, limits, 0) == table.rows
  {
    WalkIsExact(table.rows, 0, limits, 0);
  }

  /** Walking a collection: each visible document once and in order, masked, and no other. */
  lemma DocumentWalkIsExact(
    policy: Policy, principal: string, resource: Resource, documents: seq<Value>, limits: nat -> Option<nat>)
    returns (positions: seq<nat>)
    ensures Selects(positions, |documents|, DocumentTest(policy, principal, resource, documents))
    ensures var walk := Walk(ShownDocuments(policy, principal, resource, documents), 0, limits, 0);
            && |walk| == |positions|
            && forall i :: 0 <= i < |walk| ==>
                 positions[i] < |documents| && walk[i] == Apply(documents[positions[i]], OpsFor(policy.masks, resource))
  {
    hide VisibleDocuments, Apply, OpsFor, Walk, Selects, DocumentTest;
    var shown := ShownDocuments(policy, principal, resource, documents);
    WalkIsExact(shown, 0, limits, 0);
    assert shown[0..] == shown && documents[..|documents|] == documents;
    positions := DocumentsAt(policy, principal, resource, documents, |documents|);
  }

  // ---------------------------------------------------------------------------------------
  // Rows that no policy admits leave no trace
  // ---------------------------------------------------------------------------------------

  /** One row less: its position comes last when the test admits it. */
  lemma SelectsLess(positions: seq<nat>, size: nat, admitted: nat -> bool)
    requires size > 0 && Selects(positions, size, admitted)
    ensures if admitted(size - 1) then
              var last := |positions| - 1;
              last >= 0 && positions[last] == size - 1 && Selects(positions[..last], size - 1, admitted)
            else Selects(positions, size - 1, admitted)
  {
    assert forall i :: 0 <= i < |positions| ==> positions[i] in positions;
    if admitted(size - 1) {
      assert size - 1 in positions;
      var last := |positions| - 1;
      assert positions == positions[..last] + [positions[last]];
      assert forall i :: 0 <= i < last ==> positions[..last][i] == positions[i];
    }
  }

  /** A test selects one list of positions. */
  lemma {:induction false} SelectsOne(a: seq<nat>, b: seq<nat>, size: nat, admitted: nat -> bool)
    requires Selects(a, size, admitted) && Selects(b, size, admitted)
    ensures a == b
    decreases size
  {
    if size == 0 {
      NothingSelected(a, admitted);
      NothingSelected(b, admitted);
    } else {
      hide Selects;
      SelectsLess(a, size, admitted);
      SelectsLess(b, size, admitted);
      if admitted(size - 1) {
        SelectsOne(a[..|a| - 1], b[..|b| - 1], size - 1, admitted);
      } else {
        SelectsOne(a, b, size - 1, admitted);
      }
    }
  }

  lemma NothingSelected(positions: seq<nat>, admitted: nat -> bool)
    requires Selects(positions, 0, admitted)
    ensures positions == []
  {
    var first := if positions == [] then 0 else positions[0];
    assert first !in positions;
  }

  /** The visible rows are those at the admitted positions, whoever found the positions. */
  lemma VisibleRowsAre(table: Table, policy: Policy, principal: string, resource: Resource, positions: seq<nat>)
    requires table.columns.Some? && Selects(positions, |table.rows|, RowTest(table, policy, principal, resource))
    ensures var visible := VisibleRows(policy, principal, resource, table.columns.value, table.rows);
            |visible| == |positions| && forall i :: 0 <= i < |positions| ==>
              positions[i] < |table.rows| && visible[i] == table.rows[positions[i]]
  {
    hide VisibleRows, RowTest, Selects;
    assert table.rows[..|table.rows|] == table.rows;
    var found := VisibleAt(table, policy, principal, resource, |table.rows|);
    SelectsOne(found, positions, |table.rows|, RowTest(table, policy, principal, resource));
  }

  /** The admitted rows of two tables are the same, in the same order. */
  ghost predicate SameAdmitted(a: seq<Row>, b: seq<Row>, p: seq<nat>, q: seq<nat>) {
    && |p| == |q|
    && forall i :: 0 <= i < |p| ==> p[i] < |a| && q[i] < |b| && a[p[i]] == b[q[i]]
  }

  /**
    Secrecy: tables that differ only in rows no policy admits for the principal, in what they hold,
    how many there are or where they stand, show the principal the same, and so give them the same
    pages.
  */
  lemma HiddenRowsLeaveNoTrace(
    a: Table, b: Table, policy: Policy, principal: string, resource: Resource, p: seq<nat>, q: seq<nat>)
    requires a.columns.Some? && a.columns == b.columns
    requires Selects(p, |a.rows|, RowTest(a, policy, principal, resource))
    requires Selects(q, |b.rows|, RowTest(b, policy, principal, resource))
    requires SameAdmitted(a.rows, b.rows, p, q)
    ensures Shown(a, policy, principal, resource) == Shown(b, policy, principal, resource)
  {
    hide VisibleRows, RowTest, MasksFor, Replacement, Selects;
    VisibleRowsAre(a, policy, principal, resource, p);
    VisibleRowsAre(b, policy, principal, resource, q);
    var columns := a.columns.value;
    var x := VisibleRows(policy, principal, resource, columns, a.rows);
    var y := VisibleRows(policy, principal, resource, columns, b.rows);
    assert x == y;
    if Unrestricted(policy, resource) {
      AllVisible(policy, principal, resource, columns, a.rows);
      AllVisible(policy, principal, resource, columns, b.rows);
    }
  }

  /** The same for a collection of documents. */
  lemma HiddenDocumentsLeaveNoTrace(
    policy: Policy, principal: string, resource: Resource, a: seq<Value>, b: seq<Value>, p: seq<nat>, q: seq<nat>)
    requires Selects(p, |a|, DocumentTest(policy, principal, resource, a))
    requires Selects(q, |b|, DocumentTest(policy, principal, resource, b))
    requires |p| == |q| && forall i :: 0 <= i < |p| ==> p[i] < |a| && q[i] < |b| && a[p[i]] == b[q[i]]
    ensures ShownDocuments(policy, principal, resource, a) == ShownDocuments(policy, principal, resource, b)
  {
    hide VisibleDocuments, DocumentTest, OpsFor, Selects;
    assert a[..|a|] == a && b[..|b|] == b;
    var found := DocumentsAt(policy, principal, resource, a, |a|);
    SelectsOne(found, p, |a|, DocumentTest(policy, principal, resource, a));
    found := DocumentsAt(policy, principal, resource, b, |b|);
    SelectsOne(found, q, |b|, DocumentTest(policy, principal, resource, b));
    assert VisibleDocuments(policy, principal, resource, a) == VisibleDocuments(policy, principal, resource, b);
  }
}
