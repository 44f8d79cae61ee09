/** Who sees which rows, and when a table is not shown at all, by the policies themselves
(`row_visible`, `policy_table_page` in `src/extension.rs` and `src/db/mod.rs`). */
module Visibility {
  import opened Bytes
  import opened Masking
  import opened Paging

  /** A policy of the resource finds the value it asks for, or the principal's name, at its path. */
  ghost predicate AdmittedBy(policy: RowPolicy, principal: string, resource: Resource, value: Value) {
    && policy.resource == resource
    && (Leads(value, policy.path, policy.equals) || Leads(value, policy.path, Str(principal)))
  }

  /** No row policy is for the resource, or one of those that are admits the value. */
  ghost predicate Admits(policies: seq<RowPolicy>, principal: string, resource: Resource, value: Value) {
    || (forall policy :: policy in policies ==> policy.resource != resource)
    || (exists policy :: policy in policies && AdmittedBy(policy, principal, resource, value))
  }

  lemma VisibleExactly(policy: Policy, principal: string, resource: Resource, value: Value)
    ensures RowVisible(policy, principal, resource, value) <==> Admits(policy.rows, principal, resource, value)
  {
    forall p ensures PathHolds(value, p, principal) && p.resource == resource <==> AdmittedBy(p, principal, resource, value) {
      ExtractFollowsPath(value, p.path, p.equals);
      ExtractFollowsPath(value, p.path, Str(principal));
    }
    hide PathHolds, AdmittedBy;
    if exists p :: p in policy.rows && AdmittedBy(p, principal, resource, value) {
      var p :| p in policy.rows && AdmittedBy(p, principal, resource, value);
      var i :| 0 <= i < |policy.rows| && policy.rows[i] == p;
      assert PathHolds(value, policy.rows[i], principal);
    }
  }

  /** A row as an object: a field for every column with a cell, and in it the last such cell. */
  lemma {:induction false} RowFieldsAre(columns: seq<string>, row: Row, width: nat, column: string)
    requires width <= |columns| && width <= |row|
    ensures var fields := RowFields(columns, row, width);
            && (column in fields <==> exists i :: 0 <= i < width && columns[i] == column)
            && forall i :: 0 <= i < width && columns[i] == column && (forall j :: i < j < width ==> columns[j] != column) ==>
                 column in fields && fields[column] == row[i]
  {
    if width > 0 {
      RowFieldsAre(columns, row, width - 1, column);
    }
  }

  // ---------------------------------------------------------------------------------------
  // Refused tables
  // ---------------------------------------------------------------------------------------

  /** The mask is for the resource and names the column, or everything. */
  predicate Applies(mask: Mask, resource: Resource, column: string) {
    mask.resource == resource && ([] in mask.paths || [column] in mask.paths)
  }

  /** The last of the masks that applies to the column is mask k. */
  predicate LastApplies(masks: seq<Mask>, resource: Resource, column: string, k: nat) {
    && k < |masks| && Applies(masks[k], resource, column)
    && forall j :: k < j < |masks| ==> !Applies(masks[j], resource, column)
  }

  lemma CoversExactly(mask: Mask, resource: Resource, column: string)
    requires mask.resource == resource
    ensures Covers(mask, column) <==> Applies(mask, resource, column)
  {
    assert forall i :: 0 <= i < |mask.paths| && mask.paths[i] <= [column] ==>
      mask.paths[i] == [] || mask.paths[i] == [column];
    if [] in mask.paths {
      var i :| 0 <= i < |mask.paths| && mask.paths[i] == [];
      assert mask.paths[i] <= [column];
    }
    if [column] in mask.paths {
      var i :| 0 <= i < |mask.paths| && mask.paths[i] == [column];
      assert mask.paths[i] <= [column];
    }
  }

  /** A column is replaced exactly when a mask of the resource applies to it, by what the last such
  mask puts in. */
  lemma {:induction false} ReplacementExactly(masks: seq<Mask>, resource: Resource, column: string)
    ensures var replacement := Replacement(MasksFor(masks, resource), column);
            && (replacement.None? <==> forall mask :: mask in masks ==> !Applies(mask, resource, column))
            && forall k: nat :: LastApplies(masks, resource, column, k) ==> replacement == Some(masks[k].replacement)
  {
    hide Covers, Applies;
    if masks != [] {
      var n := |masks| - 1;
      var rest, last := masks[..n], masks[n];
      assert masks == rest + [last];
      ReplacementExactly(rest, resource, column);
      if last.resource == resource {
        CoversExactly(last, resource, column);
        assert MasksFor(masks, resource)[..|MasksFor(masks, resource)| - 1] == MasksFor(rest, resource);
      } else {
        assert !Applies(last, resource, column) by { OtherResource(last, resource, column); }
        assert MasksFor(masks, resource) == MasksFor(rest, resource);
      }
      forall k: nat | LastApplies(masks, resource, column, k) && k < n ensures LastApplies(rest, resource, column, k) {
        forall j | k < j < n ensures !Applies(rest[j], resource, column) {
          assert rest[j] == masks[j];
        }
      }
    }
  }

  lemma OtherResource(mask: Mask, resource: Resource, column: string)
    requires mask.resource != resource
    ensures !Applies(mask, resource, column)
  {
  }

  lemma {:induction false} LastOne(masks: seq<Mask>, resource: Resource, column: string) returns (k: nat)
    requires exists mask :: mask in masks && Applies(mask, resource, column)
    ensures LastApplies(masks, resource, column, k)
  {
    hide Applies;
    var n := |masks| - 1;
    assert masks == masks[..n] + [masks[n]];
    if Applies(masks[n], resource, column) {
      k := n;
    } else {
      k := LastOne(masks[..n], resource, column);
    }
  }

  lemma {:induction false} NoMasksExactly(masks: seq<Mask>, resource: Resource)
    ensures MasksFor(masks, resource) == [] <==> forall mask :: mask in masks ==> mask.resource != resource
  {
    if masks != [] {
      var n := |masks| - 1;
      assert masks == masks[..n] + [masks[n]];
      NoMasksExactly(masks[..n], resource);
    }
  }

  /** Some row policy or mask is for the resource. */
  ghost predicate Governed(policy: Policy, resource: Resource) {
    || (exists p :: p in policy.rows && p.resource == resource)
    || (exists mask :: mask in policy.masks && mask.resource == resource)
  }

  lemma GovernedExactly(policy: Policy, resource: Resource)
    ensures Unrestricted(policy, resource) <==> !Governed(policy, resource)
  {
    NoMasksExactly(policy.masks, resource);
    if exists p :: p in policy.rows && p.resource == resource {
      var p :| p in policy.rows && p.resource == resource;
      var i :| 0 <= i < |policy.rows| && policy.rows[i] == p;
      assert policy.rows[i].resource == resource;
    }
  }

  /** The last mask that applies to some column puts in an array, an object, a vector or a point. */
  ghost predicate PutsInStructure(policy: Policy, resource: Resource, columns: seq<string>) {
    exists column, k: nat :: column in columns && LastApplies(policy.masks, resource, column, k)
      && var r := policy.masks[k].replacement; r.Array? || r.Object? || r.Vector? || r.GeoPoint?
  }

  lemma ScalarsExactly(policy: Policy, resource: Resource, columns: seq<string>)
    ensures AllScalar(Replacements(MasksFor(policy.masks, resource), columns))
            <==> !PutsInStructure(policy, resource, columns)
  {
    hide MasksFor, Replacement, Applies;
    var masks := MasksFor(policy.masks, resource);
    var replacements := Replacements(masks, columns);
    forall column, k: nat | LastApplies(policy.masks, resource, column, k)
      ensures Replacement(masks, column) == Some(policy.masks[k].replacement)
    {
      ReplacementExactly(policy.masks, resource, column);
    }
    forall i | 0 <= i < |columns| && replacements[i].Some?
      ensures exists k: nat :: LastApplies(policy.masks, resource, columns[i], k)
    {
      ReplacementExactly(policy.masks, resource, columns[i]);
      var k := LastOne(policy.masks, resource, columns[i]);
    }
    if PutsInStructure(policy, resource, columns) {
      var column, k: nat :| column in columns && LastApplies(policy.masks, resource, column, k)
        && var r := policy.masks[k].replacement; r.Array? || r.Object? || r.Vector? || r.GeoPoint?;
      var i :| 0 <= i < |columns| && columns[i] == column;
      assert replacements[i] == Some(policy.masks[k].replacement);
    }
  }

  /** A table is refused exactly when some policy is for it and either its columns are not known or
  a mask would put a structure into one of them. */
  lemma RefusedExactly(table: Table, policy: Policy, principal: string, resource: Resource)
    ensures var shown, governed := Shown(table, policy, principal, resource), Governed(policy, resource);
            && (shown == Denied(NoSchema) <==> governed && table.columns.None?)
            && (shown == Denied(NotScalar) <==>
                governed && table.columns.Some? && PutsInStructure(policy, resource, table.columns.value))
            && (!governed ==> shown == Ok(table.rows))
  {
    hide MasksFor, Replacement, AllScalar, PutsInStructure, Unrestricted, Governed;
    GovernedExactly(policy, resource);
    if table.columns.Some? {
      ScalarsExactly(policy, resource, table.columns.value);
    }
  }
}
