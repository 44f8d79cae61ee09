/** Data pages under row and masking policies. */
module Paging {
  import opened Bytes
  import opened Masking

  const DEFAULT_LIMIT: nat := 100
  const MAX_LIMIT: nat := 1000

  type Row = seq<Value>

  datatype RowPolicy = RowPolicy(resource: Resource, path: Path, equals: Value)
  datatype Policy = Policy(rows: seq<RowPolicy>, masks: seq<Mask>)

  datatype Table = Table(columns: Option<seq<string>>, rows: seq<Row>)

  datatype Refused = NoSchema | NotScalar
  datatype Rows = Ok(rows: seq<Row>) | Denied(why: Refused)

  datatype Page = Page(offset: nat, limit: nat, capped: bool)

  /** The offset and limit of a request, clamped to what a page may hold. */
  function DataPage(offset: Option<nat>, limit: Option<nat>): (page: Page)
    ensures 1 <= page.limit <= 1000
    ensures offset.Some? ==> page.offset == offset.value
    ensures offset.None? ==> page.offset == 0
    ensures limit.Some? && 1 <= limit.value <= 1000 ==> page.limit == limit.value && !page.capped
    ensures limit.Some? && limit.value > 1000 ==> page.limit == 1000 && page.capped
    ensures limit.Some? && limit.value == 0 ==> page.limit == 1 && page.capped
    ensures limit.None? ==> page.limit == 100 && !page.capped
  {
    var requested := if limit.Some? then limit.value else DEFAULT_LIMIT;
    var clamped := if requested < 1 then 1 else if requested > MAX_LIMIT then MAX_LIMIT else requested;
    Page(if offset.Some? then offset.value else 0, clamped, requested != clamped)
  }

  predicate Scalar(value: Value) {
    !value.Array? && !value.Object? && !value.Vector? && !value.GeoPoint?
  }

  /** The columns and the cells that have both a name and a value. */
  function Width(columns: seq<string>, row: Row): nat {
    if |columns| <= |row| then |columns| else |row|
  }

  /** A row as an object; of two columns of one name the later counts. */
  function RowFields(columns: seq<string>, row: Row, width: nat): map<string, Value>
    requires width <= |columns| && width <= |row|
  {
    if width == 0 then map[] else RowFields(columns, row, width - 1)[columns[width - 1] := row[width - 1]]
  }

  function RowObject(columns: seq<string>, row: Row): Value {
    Object(RowFields(columns, row, Width(columns, row)))
  }

  predicate PathHolds(value: Value, policy: RowPolicy, principal: string) {
    ExtractPath(value, policy.path) == Some(policy.equals) || ExtractPath(value, policy.path) == Some(Str(principal))
  }

  predicate HasRowPolicy(policy: Policy, resource: Resource) {
    exists i :: 0 <= i < |policy.rows| && policy.rows[i].resource == resource
  }

  /** A value is visible when the resource has no row policy or one of them admits it. */
  predicate RowVisible(policy: Policy, principal: string, resource: Resource, value: Value) {
    || !HasRowPolicy(policy, resource)
    || exists i :: 0 <= i < |policy.rows| && policy.rows[i].resource == resource && PathHolds(value, policy.rows[i], principal)
  }

  function MasksFor(masks: seq<Mask>, resource: Resource): seq<Mask> {
    if masks == [] then []
    else
      var rest, last := masks[..|masks| - 1], masks[|masks| - 1];
      MasksFor(rest, resource) + if last.resource == resource then [last] else []
  }

  /** The mask names the column, or everything. */
  predicate Covers(mask: Mask, column: string) {
    exists i :: 0 <= i < |mask.paths| && mask.paths[i] <= [column]
  }

  /** The replacement of the last mask that covers the column. */
  function Replacement(masks: seq<Mask>, column: string): Option<Value> {
    if masks == [] then None
    else if Covers(masks[|masks| - 1], column) then Some(masks[|masks| - 1].replacement)
    else Replacement(masks[..|masks| - 1], column)
  }

  function Replacements(masks: seq<Mask>, columns: seq<string>): seq<Option<Value>> {
    seq(|columns|, i requires 0 <= i < |columns| => Replacement(masks, columns[i]))
  }

  predicate AllScalar(replacements: seq<Option<Value>>) {
    forall i :: 0 <= i < |replacements| && replacements[i].Some? ==> Scalar(replacements[i].value)
  }

  function MaskRow(row: Row, replacements: seq<Option<Value>>): (masked: Row)
    ensures |masked| == |row|
  {
    seq(|row|, i requires 0 <= i < |row| =>
      if i < |replacements| && replacements[i].Some? then replacements[i].value else row[i])
  }

  function VisibleRows(policy: Policy, principal: string, resource: Resource, columns: seq<string>, rows: seq<Row>): seq<Row> {
    if rows == [] then []
    else
      var rest, last := rows[..|rows| - 1], rows[|rows| - 1];
      VisibleRows(policy, principal, resource, columns, rest) +
      if RowVisible(policy, principal, resource, RowObject(columns, last)) then [last] else []
  }

  function Skip<T>(items: seq<T>, offset: nat): seq<T> {
    if offset <= |items| then items[offset..] else []
  }

  function Take<T>(items: seq<T>, limit: nat): seq<T> {
    if limit <= |items| then items[..limit] else items
  }

  function MaskAll(rows: seq<Row>, replacements: seq<Option<Value>>): seq<Row> {
    seq(|rows|, i requires 0 <= i < |rows| => MaskRow(rows[i], replacements))
  }

  /** No row or masking policy speaks about the resource. */
  predicate Unrestricted(policy: Policy, resource: Resource) {
    !HasRowPolicy(policy, resource) && MasksFor(policy.masks, resource) == []
  }

  /** Everything a principal may see of a table: its visible rows in order, masked. */
  function Shown(table: Table, policy: Policy, principal: string, resource: Resource): Rows {
    if Unrestricted(policy, resource) then Ok(table.rows)
    else if table.columns.None? then Denied(NoSchema)
    else
      var replacements := Replacements(MasksFor(policy.masks, resource), table.columns.value);
      if !AllScalar(replacements) then Denied(NotScalar)
      else Ok(MaskAll(VisibleRows(policy, principal, resource, table.columns.value, table.rows), replacements))
  }

  // ---------------------------------------------------------------------------------------
  // Reading one page
  // ---------------------------------------------------------------------------------------

  method FindMasks(masks: seq<Mask>, resource: Resource) returns (found: seq<Mask>)
    ensures found == MasksFor(masks, resource)
  {
    found := [];
    for i := 0 to |masks|
      invariant found == MasksFor(masks[..i], resource)
    {
      assert masks[..i + 1][..i] == masks[..i];
      if masks[i].resource == resource {
        found := found + [masks[i]];
      }
    }
    assert masks[..|masks|] == masks;
  }

  /** Searches the masks from the last to the first. */
  method FindReplacement(masks: seq<Mask>, column: string) returns (replacement: Option<Value>)
    ensures replacement == Replacement(masks, column)
  {
    var i := |masks|;
    assert masks[..i] == masks;
    while i > 0
      invariant 0 <= i <= |masks|
      invariant Replacement(masks[..i], column) == Replacement(masks, column)
    {
      i := i - 1;
      assert masks[..i + 1][..i] == masks[..i];
      if Covers(masks[i], column) {
        return Some(masks[i].replacement);
      }
    }
    return None;
  }

  method FilterRows(policy: Policy, principal: string, resource: Resource, columns: seq<string>, rows: seq<Row>)
    returns (visible: seq<Row>)
    ensures visible == VisibleRows(policy, principal, resource, columns, rows)
  {
    hide RowVisible;
    visible := [];
    for i := 0 to |rows|
      invariant visible == VisibleRows(policy, principal, resource, columns, rows[..i])
    {
      assert rows[..i + 1][..i] == rows[..i];
      if RowVisible(policy, principal, resource, RowObject(columns, rows[i])) {
        visible := visible + [rows[i]];
      }
    }
    assert rows[..|rows|] == rows;
  }

  /** Overwrites the covered cells of a row. */
  method OverwriteCells(row: Row, replacements: seq<Option<Value>>) returns (masked: Row)
    ensures masked == MaskRow(row, replacements)
  {
    masked := row;
    var i := 0;
    while i < |row| && i < |replacements|
      invariant 0 <= i <= |row| && i <= |replacements| && |masked| == |row|
      invariant forall j :: 0 <= j < i ==> masked[j] == MaskRow(row, replacements)[j]
      invariant forall j :: i <= j < |row| ==> masked[j] == row[j]
    {
      if replacements[i].Some? {
        masked := masked[i := replacements[i].value];
      }
      i := i + 1;
    }
  }

  /** The rows of one page and one more, as the lookahead for a further page. */
  method PolicyTablePage(table: Table, policy: Policy, principal: string, resource: Resource, page: Page) returns (r: Rows)
    ensures r == match Shown(table, policy, principal, resource)
                 case Denied(why) => Denied(why)
                 case Ok(rows) => Ok(Take(Skip(rows, page.offset), page.limit + 1))
  {
    hide RowVisible, VisibleRows, Replacement, HasRowPolicy, MasksFor, RowObject;
    var hasRowPolicy := HasRowPolicy(policy, resource);
    var masks := FindMasks(policy.masks, resource);
    if !hasRowPolicy && masks == [] {
      return Ok(Take(Skip(table.rows, page.offset), page.limit + 1));
    }
    if table.columns.None? {
      return Denied(NoSchema);
    }
    var columns := table.columns.value;
    var replacements := [];
    for i := 0 to |columns|
      invariant replacements == Replacements(masks, columns)[..i]
    {
      var replacement := FindReplacement(masks, columns[i]);
      replacements := replacements + [replacement];
    }
    assert replacements == Replacements(masks, columns);
    if !AllScalar(replacements) {
      return Denied(NotScalar);
    }
    var rows;
    if hasRowPolicy {
      var visible := FilterRows(policy, principal, resource, columns, table.rows);
      rows := Take(Skip(visible, page.offset), page.limit + 1);
    } else {
      AllVisible(policy, principal, resource, columns, table.rows);
      rows := Take(Skip(table.rows, page.offset), page.limit + 1);
    }
    var masked := [];
    for i := 0 to |rows|
      invariant masked == MaskAll(rows, replacements)[..i]
    {
      var row := OverwriteCells(rows[i], replacements);
      masked := masked + [row];
    }
    assert masked == MaskAll(rows, replacements);
    MaskAfterSlicing(VisibleRows(policy, principal, resource, columns, table.rows), replacements, page);
    return Ok(masked);
  }

  lemma {:induction false} AllVisible(policy: Policy, principal: string, resource: Resource, columns: seq<string>, rows: seq<Row>)
    requires !HasRowPolicy(policy, resource)
    ensures VisibleRows(policy, principal, resource, columns, rows) == rows
  {
    if rows != [] {
      AllVisible(policy, principal, resource, columns, rows[..|rows| - 1]);
    }
  }

  lemma MaskAfterSlicing(rows: seq<Row>, replacements: seq<Option<Value>>, page: Page)
    ensures MaskAll(Take(Skip(rows, page.offset), page.limit + 1), replacements) ==
            Take(Skip(MaskAll(rows, replacements), page.offset), page.limit + 1)
  {
    hide MaskRow;
    SlicedAt(rows, page);
    SlicedAt(MaskAll(rows, replacements), page);
  }

  // ---------------------------------------------------------------------------------------
  // Documents, which are masked as whole values
  // ---------------------------------------------------------------------------------------

  function VisibleDocuments(policy: Policy, principal: string, resource: Resource, documents: seq<Value>): seq<Value> {
    if documents == [] then []
    else
      var rest, last := documents[..|documents| - 1], documents[|documents| - 1];
      VisibleDocuments(policy, principal, resource, rest) +
      if RowVisible(policy, principal, resource, last) then [last] else []
  }

  function MaskDocuments(documents: seq<Value>, ops: seq<Op>): seq<Value> {
    seq(|documents|, i requires 0 <= i < |documents| => Apply(documents[i], ops))
  }

  /** Everything a principal may see of a collection. */
  function ShownDocuments(policy: Policy, principal: string, resource: Resource, documents: seq<Value>): seq<Value> {
    MaskDocuments(VisibleDocuments(policy, principal, resource, documents), OpsFor(policy.masks, resource))
  }

  lemma {:induction false} AllDocumentsVisible(policy: Policy, principal: string, resource: Resource, documents: seq<Value>)
    requires !HasRowPolicy(policy, resource)
    ensures VisibleDocuments(policy, principal, resource, documents) == documents
  {
    if documents != [] {
      AllDocumentsVisible(policy, principal, resource, documents[..|documents| - 1]);
    }
  }

  method DocumentPage(policy: Policy, principal: string, resource: Resource, documents: seq<Value>, page: Page)
    returns (found: seq<Value>)
    ensures found == Take(Skip(ShownDocuments(policy, principal, resource, documents), page.offset), page.limit + 1)
  {
    hide RowVisible, Apply, HasRowPolicy, OpsFor, Take, Skip;
    var visible := documents;
    if HasRowPolicy(policy, resource) {
      visible := [];
      for i := 0 to |documents|
        invariant visible == VisibleDocuments(policy, principal, resource, documents[..i])
      {
        assert documents[..i + 1][..i] == documents[..i];
        if RowVisible(policy, principal, resource, documents[i]) {
          visible := visible + [documents[i]];
        }
      }
      assert documents[..|documents|] == documents;
    } else {
      AllDocumentsVisible(policy, principal, resource, documents);
    }
    ghost var ops := OpsFor(policy.masks, resource);
    var slice := Take(Skip(visible, page.offset), page.limit + 1);
    found := [];
    for i := 0 to |slice|
      invariant found == MaskDocuments(slice, ops)[..i]
    {
      var masked := MaskValue(policy.masks, resource, slice[i]);
      found := found + [masked];
    }
    assert found == MaskDocuments(slice, ops);
    MaskDocumentsAfterSlicing(visible, ops, page);
  }

  lemma MaskDocumentsAfterSlicing(documents: seq<Value>, ops: seq<Op>, page: Page)
    ensures MaskDocuments(Take(Skip(documents, page.offset), page.limit + 1), ops) ==
            Take(Skip(MaskDocuments(documents, ops), page.offset), page.limit + 1)
  {
    hide Apply;
    SlicedAt(documents, page);
    SlicedAt(MaskDocuments(documents, ops), page);
  }

  /** The elements of a slice. */
  lemma SlicedAt<T>(items: seq<T>, page: Page)
    ensures var slice := Take(Skip(items, page.offset), page.limit + 1);
            && |slice| == (if page.offset > |items| then 0
                           else if page.offset + page.limit + 1 <= |items| then page.limit + 1
                           else |items| - page.offset)
            && forall i :: 0 <= i < |slice| ==> slice[i] == items[page.offset + i]
  {
  }

  // ---------------------------------------------------------------------------------------
  // Following next_offset
  // ---------------------------------------------------------------------------------------

  datatype Response<T> = Response(rows: seq<T>, hasMore: bool, nextOffset: Option<nat>)

  /** What a listing answers from the page and its lookahead row. */
  function Respond<T>(found: seq<T>, page: Page): Response<T> {
    var hasMore := |found| > page.limit;
    var rows := if hasMore then found[..page.limit] else found;
    Response(rows, hasMore, if hasMore then Some(page.offset + |rows|) else None)
  }

  function Listing<T>(items: seq<T>, page: Page): Response<T> {
    Respond(Take(Skip(items, page.offset), page.limit + 1), page)
  }

  /** A page is a slice of the items; there is more exactly when an item follows it. */
  lemma ListingIsASlice<T>(items: seq<T>, page: Page)
    ensures page.offset > |items| ==> Listing(items, page) == Response([], false, None)
    ensures page.offset <= |items| ==>
            var response := Listing(items, page);
            && response.hasMore == (page.offset + page.limit < |items|)
            && response.rows == items[page.offset..if response.hasMore then page.offset + page.limit else |items|]
            && response.nextOffset == if response.hasMore then Some(page.offset + page.limit) else None
  {
  }

  /** A request without an offset or a limit gets the first hundred items. */
  lemma FirstPage<T>(items: seq<T>)
    ensures var response := Listing(items, DataPage(None, None));
            && response.rows == items[..if |items| > 100 then 100 else |items|]
            && response.nextOffset == if |items| > 100 then Some(100) else None
  {
    ListingIsASlice(items, DataPage(None, None));
  }

  datatype Listed = Listed(response: Response<Row>) | Failed(why: Refused)

  /** The table listing: a page of what the principal may see, or a refusal. */
  method ListTableRows(table: Table, policy: Policy, principal: string, resource: Resource,
                       offset: Option<nat>, limit: Option<nat>)
    returns (r: Listed)
    ensures r == match Shown(table, policy, principal, resource)
                 case Denied(why) => Failed(why)
                 case Ok(rows) => Listed(Listing(rows, DataPage(offset, limit)))
  {
    hide Shown;
    var page := DataPage(offset, limit);
    var found := PolicyTablePage(table, policy, principal, resource, page);
    if found.Denied? {
      return Failed(found.why);
    }
    var rows := found.rows;
    var hasMore := |rows| > page.limit;
    if hasMore {
      rows := rows[..page.limit];
    }
    return Listed(Response(rows, hasMore, if hasMore then Some(page.offset + |rows|) else None));
  }

  /** The document listing. */
  method ListDocuments(policy: Policy, principal: string, resource: Resource, documents: seq<Value>,
                       offset: Option<nat>, limit: Option<nat>)
    returns (response: Response<Value>)
    ensures response == Listing(ShownDocuments(policy, principal, resource, documents), DataPage(offset, limit))
  {
    hide ShownDocuments;
    var page := DataPage(offset, limit);
    var found := DocumentPage(policy, principal, resource, documents, page);
    var hasMore := |found| > page.limit;
    if hasMore {
      found := found[..page.limit];
    }
    return Response(found, hasMore, if hasMore then Some(page.offset + |found|) else None);
  }

  /** All pages from an offset on, each asked for with any limit the client likes. */
  function Walk<T>(items: seq<T>, offset: nat, limits: nat -> Option<nat>, asked: nat): seq<T>
    requires offset <= |items|
    decreases |items| - offset
  {
    var page := DataPage(Some(offset), limits(asked));
    var response := Listing(items, page);
    ListingIsASlice(items, page);
    if response.nextOffset.Some? then response.rows + Walk(items, response.nextOffset.value, limits, asked + 1)
    else response.rows
  }

  /** Following the offsets ends, and yields every item once and in order. */
  lemma {:induction false} WalkIsExact<T>(items: seq<T>, offset: nat, limits: nat -> Option<nat>, asked: nat)
    requires offset <= |items|
    ensures Walk(items, offset, limits, asked) == items[offset..]
    decreases |items| - offset
  {
    var page := DataPage(Some(offset), limits(asked));
    ListingIsASlice(items, page);
    var response := Listing(items, page);
    if response.hasMore {
      WalkIsExact(items, response.nextOffset.value, limits, asked + 1);
    }
  }
}
