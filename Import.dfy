/** The import step (`importAction`): the posted dataset is merged row by
    row, the column mapping, the overrides and the password list are
    sanitised, and every row marked for import becomes one entry of the
    insert/update batch handed to the DataHandler. */
module Import {
  import opened Php
  import opened Upload

  /** One row of the posted dataset: cell values by column key, plus the
      `import` checkbox and whatever else the form posted for the row. */
  type Row = OrdMap<string, Value>

  /** The posted dataset: rows by row key. */
  type Dataset = OrdMap<string, Row>

  /** One decoded form value `dataset[row][key] = value`; the form posts the
      dataset as a list of these. */
  datatype Fragment = Fragment(row: string, key: string, value: Value)

  // ---------------------------------------------------------------- dataset merge

  function RowAt(a: Dataset, r: string): Row
  {
    if r in a.vals then a.vals[r] else Empty()
  }

  ghost predicate ValidDataset(a: Dataset)
  {
    Valid(a) && forall r :: r in a.vals ==> Valid(a.vals[r])
  }

  /** `$a[$k][$key] = $value` for every fragment, in order. */
  function Merged(frags: seq<Fragment>): (a: Dataset)
    ensures ValidDataset(a)
    decreases |frags|
  {
    if frags == [] then Empty()
    else
      var a := Merged(frags[..|frags| - 1]);
      var f := frags[|frags| - 1];
      Put(a, f.row, Put(RowAt(a, f.row), f.key, f.value))
  }

  /** The value of the last fragment addressing cell `(r, k)`, if any. */
  function LastWrite(frags: seq<Fragment>, r: string, k: string): Option<Value>
    decreases |frags|
  {
    if frags == [] then None
    else
      var f := frags[|frags| - 1];
      if f.row == r && f.key == k then Some(f.value) else LastWrite(frags[..|frags| - 1], r, k)
  }

  /** A cell of the merged dataset exists exactly when some fragment
      addresses it, and it holds the value of the last such fragment. */
  lemma {:induction false} MergeLaterWins(frags: seq<Fragment>, r: string, k: string)
    ensures (r in Merged(frags).vals && k in Merged(frags).vals[r].vals) <==> LastWrite(frags, r, k).Some?
    ensures LastWrite(frags, r, k).Some? ==> Merged(frags).vals[r].vals[k] == LastWrite(frags, r, k).value
    decreases |frags|
  {
    if frags != [] {
      MergeLaterWins(frags[..|frags| - 1], r, k);
    }
  }

  function RowsOf(frags: seq<Fragment>): seq<string>
  {
    seq(|frags|, i requires 0 <= i < |frags| => frags[i].row)
  }

  /** Rows appear in the order their first fragment does. */
  lemma {:induction false} MergeRowOrder(frags: seq<Fragment>)
    ensures Merged(frags).keys == ArrayUnique(RowsOf(frags))
    decreases |frags|
  {
    if frags != [] {
      var p := frags[..|frags| - 1];
      var f := frags[|frags| - 1];
      var rs := RowsOf(frags);
      MergeRowOrder(p);
      RowsOfInit(frags);
      ArrayUniqueStep(rs, |frags| - 1);
      TakeAll(rs);
      var a := Merged(p);
      assert f.row in a.vals <==> f.row in a.keys;
    }
  }

  lemma RowsOfInit(frags: seq<Fragment>)
    requires frags != []
    ensures RowsOf(frags)[..|frags| - 1] == RowsOf(frags[..|frags| - 1])
    ensures RowsOf(frags)[|frags| - 1] == frags[|frags| - 1].row
  {
  }

  /** The nested loops of lines 283-294 over the decoded fragments. */
  method MergeFragments(frags: seq<Fragment>) returns (a: Dataset)
    ensures a == Merged(frags)
    ensures ValidDataset(a)
  {
    a := Empty();
    for i := 0 to |frags|
      invariant a == Merged(frags[..i])
    {
      var f := frags[i];
      var row := if f.row in a.vals then a.vals[f.row] else Empty();
      row := Put(row, f.key, f.value);
      a := Put(a, f.row, row);
      assert frags[..i + 1][..i] == frags[..i];
    }
    assert frags[..|frags|] == frags;
  }

  // ---------------------------------------------------------------- sanitising

  /** The field names the mapping assigns columns to. */
  function MappedFields(fields: OrdMap<string, string>): set<string>
  {
    set c | c in fields.vals :: fields.vals[c]
  }

  /** A column mapped to an empty or a disallowed field name is dropped. */
  predicate Unmapped(field: string)
  {
    EmptyString(field) || field in Disallowed
  }

  /** The columns among `cs` that the mapping loop unsets. */
  function DroppedColumns(fields: OrdMap<string, string>, cs: seq<string>): set<string>
  {
    set c | c in cs && c in fields.vals && Unmapped(fields.vals[c])
  }

  lemma DroppedColumnsStep(fields: OrdMap<string, string>, cs: seq<string>, c: string)
    requires c in fields.vals
    ensures DroppedColumns(fields, cs + [c])
         == if Unmapped(fields.vals[c]) then DroppedColumns(fields, cs) + {c} else DroppedColumns(fields, cs)
  {
  }

  lemma DroppedColumnsNone(fields: OrdMap<string, string>)
    ensures DroppedColumns(fields, []) == {}
  {
  }

  /** Lines 296-304: unset every column whose field is empty, then every
      column whose field is disallowed; the rest keep their order. */
  method SanitizeColumns(fields: OrdMap<string, string>) returns (kept: OrdMap<string, string>)
    requires Valid(fields)
    ensures kept == Drop(fields, DroppedColumns(fields, fields.keys))
    ensures Valid(kept)
    ensures forall c :: c in kept.vals <==> c in fields.vals && !Unmapped(fields.vals[c])
    ensures forall c :: c in kept.vals ==> kept.vals[c] == fields.vals[c]
  {
    DropNothing(fields);
    DroppedColumnsNone(fields);
    assert fields.keys[..0] == [];
    kept := fields;
    for i := 0 to |fields.keys|
      invariant kept == Drop(fields, DroppedColumns(fields, fields.keys[..i]))
    {
      var c := fields.keys[i];
      var field := fields.vals[c];
      TakeOneMore(fields.keys, i);
      DroppedColumnsStep(fields, fields.keys[..i], c);
      ghost var gone := DroppedColumns(fields, fields.keys[..i]);
      if EmptyString(field) {
        DropTwice(fields, gone, {c});
        kept := Drop(kept, {c});
        gone := gone + {c};
      }
      if field in Disallowed {
        DropTwice(fields, gone, {c});
        kept := Drop(kept, {c});
        gone := gone + {c};
      }
    }
    TakeAll(fields.keys);
  }

  /** An override is dropped when its VALUE is empty or is one of the mapped
      field names. The key, which names the overridden field, is not looked
      at, so an override for a mapped field survives and replaces that
      column's value in every row. */
  predicate Rejected(value: string, kept: OrdMap<string, string>)
  {
    EmptyString(value) || value in MappedFields(kept)
  }

  function DroppedOverrides(overrides: OrdMap<string, string>, ks: seq<string>, kept: OrdMap<string, string>): set<string>
  {
    set k | k in ks && k in overrides.vals && Rejected(overrides.vals[k], kept)
  }

  lemma DroppedOverridesStep(overrides: OrdMap<string, string>, ks: seq<string>, k: string, kept: OrdMap<string, string>)
    requires k in overrides.vals
    ensures DroppedOverrides(overrides, ks + [k], kept)
         == if Rejected(overrides.vals[k], kept) then DroppedOverrides(overrides, ks, kept) + {k} else DroppedOverrides(overrides, ks, kept)
  {
  }

  lemma DroppedOverridesNone(overrides: OrdMap<string, string>, kept: OrdMap<string, string>)
    ensures DroppedOverrides(overrides, [], kept) == {}
  {
  }

  /** Lines 306-310. */
  method SanitizeOverrides(overrides: OrdMap<string, string>, kept: OrdMap<string, string>) returns (o: OrdMap<string, string>)
    requires Valid(overrides)
    ensures o == Drop(overrides, DroppedOverrides(overrides, overrides.keys, kept))
    ensures Valid(o)
    ensures forall k :: k in o.vals <==> k in overrides.vals && !Rejected(overrides.vals[k], kept)
    ensures forall k :: k in o.vals ==> o.vals[k] == overrides.vals[k]
  {
    DropNothing(overrides);
    DroppedOverridesNone(overrides, kept);
    assert overrides.keys[..0] == [];
    o := overrides;
    for i := 0 to |overrides.keys|
      invariant o == Drop(overrides, DroppedOverrides(overrides, overrides.keys[..i], kept))
    {
      var k := overrides.keys[i];
      var value := overrides.vals[k];
      TakeOneMore(overrides.keys, i);
      DroppedOverridesStep(overrides, overrides.keys[..i], k, kept);
      ghost var gone := DroppedOverrides(overrides, overrides.keys[..i], kept);
      if EmptyString(value) || value in MappedFields(kept) {
        DropTwice(overrides, gone, {k});
        o := Drop(o, {k});
      }
    }
    TakeAll(overrides.keys);
  }

  /** The password fields that receive a generated value: none unless the
      override flag is truthy, otherwise the posted list without the
      mapped fields. */
  function PasswordsToSet(flag: string, list: string, kept: OrdMap<string, string>): seq<string>
  {
    if EmptyString(flag) then [] else Without(TrimExplode(list), MappedFields(kept))
  }

  /** Lines 311-320. */
  method SanitizePasswords(flag: string, list: string, kept: OrdMap<string, string>) returns (pws: seq<string>)
    ensures pws == PasswordsToSet(flag, list, kept)
    ensures EmptyString(flag) ==> pws == []
    ensures !EmptyString(flag) ==> forall p :: p in pws <==> p in TrimExplode(list) && p !in MappedFields(kept)
  {
    var passwordFields := TrimExplode(list);
    pws := [];
    if !EmptyString(flag) {
      var mapped := MappedFields(kept);
      for i := 0 to |passwordFields|
        invariant pws == Without(passwordFields[..i], mapped)
      {
        var p := passwordFields[i];
        TakeOneMore(passwordFields, i);
        WithoutSnoc(passwordFields[..i], p, mapped);
        if p !in mapped {
          pws := pws + [p];
        }
      }
      TakeAll(passwordFields);
    }
  }

  /** With the override flag set and no password field in the upload, the
      posted list is "" and `trimExplode` turns it into one empty name, so
      every imported record gets a generated value under the key "". */
  lemma EmptyPasswordList(kept: OrdMap<string, string>)
    requires forall c :: c in kept.vals ==> !EmptyString(kept.vals[c])
    ensures PasswordsToSet("1", "", kept) == [""]
  {
    TrimExplodeEmpty();
    assert "" !in MappedFields(kept);
    WithoutOne("", MappedFields(kept));
  }

  /** The password list the upload step posts (`implode(',', ...)` of the
      catalog's password fields) reads back unchanged, as long as it is not
      empty and the field names hold no comma or surrounding blank. */
  lemma PasswordListRoundTrip(passwordFields: seq<string>)
    requires |passwordFields| >= 1
    requires forall p :: p in passwordFields ==> ',' !in p && Trim(p) == p
    ensures TrimExplode(Join(passwordFields)) == passwordFields
  {
    TrimExplodeJoin(passwordFields);
  }

  // ---------------------------------------------------------------- one record

  /** The sanitised mapping every row is built with: the kept columns
      (column key to field name), the kept overrides (field name to value),
      the password fields to fill, and the page id. */
  datatype Plan = Plan(kept: OrdMap<string, string>, overrides: OrdMap<string, string>, passwords: seq<string>, page: Value)

  ghost predicate ValidPlan(p: Plan)
  {
    Valid(p.kept) && Valid(p.overrides)
  }

  /** Lines 328-339 over the columns `cs`, the record half: a column
      mapped to `uid` is skipped; any other column copies its cell (null
      when the row lacks it) into its field; after every column, `pid` is
      set to the page id unless it is set. */
  function FromColumns(row: Row, cs: seq<string>, fields: map<string, string>, page: Value): Row
    requires forall c :: c in cs ==> c in fields
    decreases |cs|
  {
    if cs == [] then Empty()
    else
      var c := cs[|cs| - 1];
      ColumnStep(FromColumns(row, cs[..|cs| - 1], fields, page), row, c, fields[c], page)
  }

  /** One pass of the column loop body for column `c` mapped to field `f`. */
  function ColumnStep(rec: Row, row: Row, c: string, f: string, page: Value): Row
  {
    var mapped := if f == "uid" then rec else Put(rec, f, Get(row, c));
    if IsSet(mapped, "pid") then mapped else Put(mapped, "pid", page)
  }

  lemma ColumnStepOther(rec: Row, row: Row, c: string, f: string, page: Value, g: string)
    requires g != "pid"
    ensures var r := ColumnStep(rec, row, c, f, page);
            (g in r.vals <==> g in rec.vals || (g == f && f != "uid"))
            && (g == f && f != "uid" ==> r.vals[g] == Get(row, c))
            && (g != f && g in rec.vals ==> r.vals[g] == rec.vals[g])
  {
  }

  lemma ColumnStepPid(rec: Row, row: Row, c: string, f: string, page: Value)
    ensures var r := ColumnStep(rec, row, c, f, page);
            "pid" in r.vals
            && (f == "pid" ==> r.vals["pid"] == if Get(row, c) != Null then Get(row, c) else page)
            && (f != "pid" ==> r.vals["pid"] == if IsSet(rec, "pid") then rec.vals["pid"] else page)
  {
  }

  /** Lines 328-333 over the columns `cs`, the `$update` half: set once a
      column mapped to `uid` has a non-empty cell. */
  predicate UpdateRequested(row: Row, cs: seq<string>, fields: map<string, string>)
    requires forall c :: c in cs ==> c in fields
    decreases |cs|
  {
    if cs == [] then false
    else
      var c := cs[|cs| - 1];
      UpdateRequested(row, cs[..|cs| - 1], fields) || (fields[c] == "uid" && !IsEmpty(Get(row, c)))
  }

  /** The last of the columns `cs` mapped to field `f`. */
  function LastColumn(cs: seq<string>, fields: map<string, string>, f: string): (r: Option<string>)
    requires forall c :: c in cs ==> c in fields
    ensures r.Some? ==> r.value in cs && fields[r.value] == f
    ensures r.None? ==> forall c :: c in cs ==> fields[c] != f
    decreases |cs|
  {
    if cs == [] then None
    else if fields[cs[|cs| - 1]] == f then Some(cs[|cs| - 1])
    else LastColumn(cs[..|cs| - 1], fields, f)
  }

  /** The row is an update exactly when some column mapped to `uid` has a
      non-empty cell. */
  lemma {:induction false} UpdateRequestedSpec(row: Row, cs: seq<string>, fields: map<string, string>)
    requires forall c :: c in cs ==> c in fields
    ensures UpdateRequested(row, cs, fields)
        <==> exists c :: c in cs && fields[c] == "uid" && !IsEmpty(Get(row, c))
    decreases |cs|
  {
    if cs != [] {
      var p := cs[..|cs| - 1];
      UpdateRequestedSpec(row, p, fields);
      assert cs == p + [cs[|cs| - 1]];
    }
  }

  /** `uid` never becomes a data field. */
  lemma {:induction false} UidNeverStored(row: Row, cs: seq<string>, fields: map<string, string>, page: Value)
    requires forall c :: c in cs ==> c in fields
    ensures "uid" !in FromColumns(row, cs, fields, page).vals
    decreases |cs|
  {
    if cs != [] {
      var c := cs[|cs| - 1];
      UidNeverStored(row, cs[..|cs| - 1], fields, page);
      ColumnStepOther(FromColumns(row, cs[..|cs| - 1], fields, page), row, c, fields[c], page, "uid");
    }
  }

  /** A field other than `uid` and `pid` is present exactly when a column
      is mapped to it. */
  lemma {:induction false} MappedFieldPresent(row: Row, cs: seq<string>, fields: map<string, string>, page: Value, f: string)
    requires forall c :: c in cs ==> c in fields
    requires f != "uid" && f != "pid"
    ensures f in FromColumns(row, cs, fields, page).vals <==> LastColumn(cs, fields, f).Some?
    decreases |cs|
  {
    if cs != [] {
      var c := cs[|cs| - 1];
      MappedFieldPresent(row, cs[..|cs| - 1], fields, page, f);
      ColumnStepOther(FromColumns(row, cs[..|cs| - 1], fields, page), row, c, fields[c], page, f);
    }
  }

  /** ... and holds the cell of the last column mapped to it. */
  lemma {:induction false} MappedFieldValue(row: Row, cs: seq<string>, fields: map<string, string>, page: Value, f: string)
    requires forall c :: c in cs ==> c in fields
    requires f != "uid" && f != "pid"
    requires LastColumn(cs, fields, f).Some?
    ensures f in FromColumns(row, cs, fields, page).vals
    ensures FromColumns(row, cs, fields, page).vals[f] == Get(row, LastColumn(cs, fields, f).value)
    decreases |cs|
  {
    var c := cs[|cs| - 1];
    var prev := FromColumns(row, cs[..|cs| - 1], fields, page);
    if fields[c] != f {
      MappedFieldValue(row, cs[..|cs| - 1], fields, page, f);
    }
    ColumnStepOther(prev, row, c, fields[c], page, f);
  }

  /** The `pid` a row ends up with: the cell of the last column mapped to
      `pid` when that is set, the page id otherwise. */
  function PidValue(row: Row, cs: seq<string>, fields: map<string, string>, page: Value): Value
    requires forall c :: c in cs ==> c in fields
  {
    match LastColumn(cs, fields, "pid")
    case Some(c) => if Get(row, c) != Null then Get(row, c) else page
    case None => page
  }

  /** `pid` is present as soon as one column is mapped. */
  lemma {:induction false} FromColumnsPid(row: Row, cs: seq<string>, fields: map<string, string>, page: Value)
    requires forall c :: c in cs ==> c in fields
    ensures "pid" in FromColumns(row, cs, fields, page).vals <==> cs != []
    ensures cs != [] ==> FromColumns(row, cs, fields, page).vals["pid"] == PidValue(row, cs, fields, page)
    decreases |cs|
  {
    if cs != [] {
      var c := cs[|cs| - 1];
      FromColumnsPid(row, cs[..|cs| - 1], fields, page);
      ColumnStepPid(FromColumns(row, cs[..|cs| - 1], fields, page), row, c, fields[c], page);
    }
  }

  /** The override values as array values. */
  function StrVals(m: map<string, string>): (r: map<string, Value>)
    ensures r.Keys == m.Keys
    ensures forall k :: k in r ==> r[k] == Str(m[k])
  {
    map k | k in m :: Str(m[k])
  }

  /** Lines 344-346: every listed password field gets the generated value
      `secret(i, j)` of row position `i` and list position `j`. */
  function WithSecrets(rec: Row, pws: seq<string>, i: nat, secret: (nat, nat) -> string): (r: Row)
    ensures Valid(rec) ==> Valid(r)
    decreases |pws|
  {
    if pws == [] then rec
    else Put(WithSecrets(rec, pws[..|pws| - 1], i, secret), pws[|pws| - 1], Str(secret(i, |pws| - 1)))
  }

  /** The last position of `x` in `s`. */
  function LastIndex<T(==)>(s: seq<T>, x: T): (j: nat)
    requires x in s
    ensures j < |s| && s[j] == x
    ensures forall k :: j < k < |s| ==> s[k] != x
    decreases |s|
  {
    if s[|s| - 1] == x then |s| - 1
    else
      assert x in s[..|s| - 1] by {
        var k :| 0 <= k < |s| && s[k] == x;
        assert s[..|s| - 1][k] == x;
      }
      LastIndex(s[..|s| - 1], x)
  }

  lemma {:induction false} WithSecretsSpec(rec: Row, pws: seq<string>, i: nat, secret: (nat, nat) -> string, f: string)
    ensures f in WithSecrets(rec, pws, i, secret).vals <==> f in rec.vals || f in pws
    ensures f in pws ==> WithSecrets(rec, pws, i, secret).vals[f] == Str(secret(i, LastIndex(pws, f)))
    ensures f !in pws && f in rec.vals ==> WithSecrets(rec, pws, i, secret).vals[f] == rec.vals[f]
    decreases |pws|
  {
    if pws != [] {
      var p := pws[..|pws| - 1];
      WithSecretsSpec(rec, p, i, secret, f);
      TakeOneMore(pws, |pws| - 1);
      TakeAll(pws);
    }
  }

  /** The record of the row at position `i`: column values, then the
      overrides, then the generated passwords. */
  function RecordOf(row: Row, i: nat, plan: Plan, secret: (nat, nat) -> string): Row
    requires ValidPlan(plan)
  {
    var cols := FromColumns(row, plan.kept.keys, plan.kept.vals, plan.page);
    WithSecrets(Assign(cols, plan.overrides.keys, StrVals(plan.overrides.vals)), plan.passwords, i, secret)
  }

  /** Lines 341-346: a generated password beats an override, and an
      override beats a mapped column, for the same field. Overrides are
      written after the column values, so an override that survived
      sanitising replaces a mapped column's value instead of only filling
      a gap. */
  lemma WriteOrder(row: Row, i: nat, plan: Plan, secret: (nat, nat) -> string, f: string)
    requires ValidPlan(plan)
    ensures var cols := FromColumns(row, plan.kept.keys, plan.kept.vals, plan.page);
            var rec := RecordOf(row, i, plan, secret);
            (f in rec.vals <==> f in cols.vals || f in plan.overrides.vals || f in plan.passwords)
            && (f in plan.passwords ==> rec.vals[f] == Str(secret(i, LastIndex(plan.passwords, f))))
            && (f !in plan.passwords && f in plan.overrides.vals ==> rec.vals[f] == Str(plan.overrides.vals[f]))
            && (f !in plan.passwords && f !in plan.overrides.vals && f in cols.vals ==> rec.vals[f] == cols.vals[f])
  {
    var cols := FromColumns(row, plan.kept.keys, plan.kept.vals, plan.page);
    var withOverrides := Assign(cols, plan.overrides.keys, StrVals(plan.overrides.vals));
    WithSecretsSpec(withOverrides, plan.passwords, i, secret, f);
  }

  /** Lines 325-346 for one row. */
  method BuildRecord(row: Row, i: nat, plan: Plan, secret: (nat, nat) -> string) returns (rec: Row, update: bool)
    requires ValidPlan(plan)
    ensures rec == RecordOf(row, i, plan, secret)
    ensures update == UpdateRequested(row, plan.kept.keys, plan.kept.vals)
  {
    var kept := plan.kept;
    rec := Empty();
    update := false;
    for k := 0 to |kept.keys|
      invariant rec == FromColumns(row, kept.keys[..k], kept.vals, plan.page)
      invariant update == UpdateRequested(row, kept.keys[..k], kept.vals)
    {
      var c := kept.keys[k];
      var field := kept.vals[c];
      TakeOneMore(kept.keys, k);
      if field == "uid" {
        if !IsEmpty(Get(row, c)) {
          update := true;
        }
      } else {
        rec := Put(rec, field, Get(row, c));
      }
      if !IsSet(rec, "pid") {
        rec := Put(rec, "pid", plan.page);
      }
    }
    TakeAll(kept.keys);
    ghost var cols := rec;
    var overrides := plan.overrides;
    for k := 0 to |overrides.keys|
      invariant rec == Assign(cols, overrides.keys[..k], StrVals(overrides.vals))
    {
      var key := overrides.keys[k];
      TakeOneMore(overrides.keys, k);
      rec := Put(rec, key, Str(overrides.vals[key]));
    }
    TakeAll(overrides.keys);
    ghost var withOverrides := rec;
    for k := 0 to |plan.passwords|
      invariant rec == WithSecrets(withOverrides, plan.passwords[..k], i, secret)
    {
      TakeOneMore(plan.passwords, k);
      rec := Put(rec, plan.passwords[k], Str(secret(i, k)));
    }
    TakeAll(plan.passwords);
  }

  // ---------------------------------------------------------------- the batch

  /** `$inserts[$table]`: records by entry key (a `uid` or a `NEW_` token). */
  type Batch = OrdMap<string, Row>

  /** The row at position `j` of the merged dataset. */
  function RowOf(imports: Dataset, j: nat): Row
    requires j < |imports.keys|
  {
    RowAt(imports, imports.keys[j])
  }

  /** Line 326: a row takes part when its `import` entry is truthy. */
  predicate Imported(row: Row)
  {
    !IsEmpty(Get(row, "import"))
  }

  /** Line 349: an update row is keyed by its own `uid` entry, an insert
      row by the token `NEW_` + `token(j)` drawn for it. The update decision
      reads the column mapped to `uid`, but the key reads the row's entry
      named `uid`, which is a different cell unless the column key itself is
      `uid`. */
  function KeyOf(imports: Dataset, j: nat, plan: Plan, token: nat -> string): string
    requires ValidPlan(plan) && j < |imports.keys|
  {
    var row := RowOf(imports, j);
    if UpdateRequested(row, plan.kept.keys, plan.kept.vals) then ArrayKey(Get(row, "uid"))
    else "NEW_" + token(j)
  }

  /** The row at position `j` produces the entry `k`. */
  predicate Produces(imports: Dataset, j: nat, plan: Plan, token: nat -> string, k: string)
    requires ValidPlan(plan) && j < |imports.keys|
  {
    Imported(RowOf(imports, j)) && KeyOf(imports, j, plan, token) == k
  }

  /** `$inserts[$table]` after the first `n` rows of the loop of lines 324-351. */
  function BatchOf(imports: Dataset, n: nat, plan: Plan, token: nat -> string, secret: (nat, nat) -> string): Batch
    requires ValidPlan(plan) && n <= |imports.keys|
  {
    if n == 0 then Empty()
    else
      var batch := BatchOf(imports, n - 1, plan, token, secret);
      var row := RowOf(imports, n - 1);
      if Imported(row) then Put(batch, KeyOf(imports, n - 1, plan, token), RecordOf(row, n - 1, plan, secret))
      else batch
  }

  /** The last of the first `n` rows that produces entry `k`. */
  function LastRowFor(imports: Dataset, n: nat, plan: Plan, token: nat -> string, k: string): (r: Option<nat>)
    requires ValidPlan(plan) && n <= |imports.keys|
    ensures r.Some? ==> r.value < n && Produces(imports, r.value, plan, token, k)
    ensures r.Some? ==> forall j :: r.value < j < n ==> !Produces(imports, j, plan, token, k)
    ensures r.None? ==> forall j :: 0 <= j < n ==> !Produces(imports, j, plan, token, k)
  {
    if n == 0 then None
    else if Produces(imports, n - 1, plan, token, k) then Some(n - 1)
    else LastRowFor(imports, n - 1, plan, token, k)
  }

  /** Only imported rows produce entries; an entry exists exactly when some
      row produces its key, and it holds the record of the last such row. */
  lemma {:induction false} BatchLastWins(imports: Dataset, n: nat, plan: Plan, token: nat -> string, secret: (nat, nat) -> string, k: string)
    requires ValidPlan(plan) && n <= |imports.keys|
    ensures k in BatchOf(imports, n, plan, token, secret).vals <==> LastRowFor(imports, n, plan, token, k).Some?
    ensures LastRowFor(imports, n, plan, token, k).Some? ==>
              var j := LastRowFor(imports, n, plan, token, k).value;
              BatchOf(imports, n, plan, token, secret).vals[k] == RecordOf(RowOf(imports, j), j, plan, secret)
  {
    if n > 0 {
      BatchLastWins(imports, n - 1, plan, token, secret, k);
      var b := BatchOf(imports, n, plan, token, secret);
      var prev := BatchOf(imports, n - 1, plan, token, secret);
      if Produces(imports, n - 1, plan, token, k) {
        assert LastRowFor(imports, n, plan, token, k) == Some(n - 1);
        assert b.vals[k] == RecordOf(RowOf(imports, n - 1), n - 1, plan, secret);
      } else {
        assert LastRowFor(imports, n, plan, token, k) == LastRowFor(imports, n - 1, plan, token, k);
        assert k in b.vals <==> k in prev.vals;
        assert k in prev.vals ==> b.vals[k] == prev.vals[k];
      }
    }
  }

  /** The batch is a well-formed ordered array. */
  lemma {:induction false} BatchValid(imports: Dataset, n: nat, plan: Plan, token: nat -> string, secret: (nat, nat) -> string)
    requires ValidPlan(plan) && n <= |imports.keys|
    ensures Valid(BatchOf(imports, n, plan, token, secret))
  {
    if n > 0 {
      BatchValid(imports, n - 1, plan, token, secret);
    }
  }

  /** The insert tokens are pairwise distinct and never equal a row's own
      `uid` entry used as a key. */
  ghost predicate TokensFresh(imports: Dataset, token: nat -> string)
  {
    (forall a, b :: 0 <= a < b < |imports.keys| ==> token(a) != token(b))
    && (forall a, b :: 0 <= a < |imports.keys| && 0 <= b < |imports.keys| ==>
          "NEW_" + token(a) != ArrayKey(Get(RowOf(imports, b), "uid")))
  }

  lemma NewKeyInjective(x: string, y: string)
    requires "NEW_" + x == "NEW_" + y
    ensures x == y
  {
    assert x == ("NEW_" + x)[4..];
  }

  /** With fresh tokens, every imported insert row has its own entry,
      holding its record: no other row can overwrite it. */
  lemma InsertRowKept(imports: Dataset, n: nat, plan: Plan, token: nat -> string, secret: (nat, nat) -> string, j: nat)
    requires ValidPlan(plan) && n <= |imports.keys|
    requires TokensFresh(imports, token)
    requires j < n && Imported(RowOf(imports, j))
    requires !UpdateRequested(RowOf(imports, j), plan.kept.keys, plan.kept.vals)
    ensures "NEW_" + token(j) in BatchOf(imports, n, plan, token, secret).vals
    ensures BatchOf(imports, n, plan, token, secret).vals["NEW_" + token(j)] == RecordOf(RowOf(imports, j), j, plan, secret)
  {
    var k := "NEW_" + token(j);
    assert Produces(imports, j, plan, token, k);
    BatchLastWins(imports, n, plan, token, secret, k);
    var last := LastRowFor(imports, n, plan, token, k).value;
    if last != j {
      if !UpdateRequested(RowOf(imports, last), plan.kept.keys, plan.kept.vals) {
        NewKeyInjective(token(last), token(j));
      }
      assert false;
    }
  }

  /** The per-row loop of lines 324-351. */
  method ImportRows(imports: Dataset, plan: Plan, token: nat -> string, secret: (nat, nat) -> string) returns (batch: Batch)
    requires ValidPlan(plan)
    ensures batch == BatchOf(imports, |imports.keys|, plan, token, secret)
  {
    batch := Empty();
    for j := 0 to |imports.keys|
      invariant batch == BatchOf(imports, j, plan, token, secret)
    {
      var row := RowAt(imports, imports.keys[j]);
      if !IsEmpty(Get(row, "import")) {
        var rec, update := BuildRecord(row, j, plan, secret);
        var key := if update then ArrayKey(Get(row, "uid")) else "NEW_" + token(j);
        batch := Put(batch, key, rec);
      }
    }
  }

  // ---------------------------------------------------------------- the action

  /** The request arguments of the import step: the target table, the
      column mapping (column key to field name), the overrides (field name
      to value), the `passwordOverride` flag, the comma list of password
      fields and the decoded dataset. */
  datatype Request = Request(
    table: string,
    fields: OrdMap<string, string>,
    overrides: OrdMap<string, string>,
    passwordOverride: string,
    passwordFields: string,
    dataset: seq<Fragment>)

  /** What goes to the DataHandler: `$inserts = [$table => batch]`. */
  datatype Inserts = Inserts(table: string, batch: Batch)

  /** The sanitised mapping of lines 296-320, as a function of the request. */
  function PlanOf(req: Request, page: Value): Plan
    requires Valid(req.fields) && Valid(req.overrides)
  {
    var kept := Drop(req.fields, DroppedColumns(req.fields, req.fields.keys));
    var overrides := Drop(req.overrides, DroppedOverrides(req.overrides, req.overrides.keys, kept));
    Plan(kept, overrides, PasswordsToSet(req.passwordOverride, req.passwordFields, kept), page)
  }

  /** `importAction` up to the hand-over to the hooks and the DataHandler
      (lines 263-351). An empty or unknown table redirects before anything
      is built (`None`). */
  method ImportAction(req: Request, tcaTables: set<string>, page: Value, token: nat -> string, secret: (nat, nat) -> string)
    returns (r: Option<Inserts>)
    requires Valid(req.fields) && Valid(req.overrides)
    ensures r.None? <==> EmptyString(req.table) || req.table !in tcaTables
    ensures r.Some? ==> r.value.table == req.table && ValidPlan(PlanOf(req, page))
    ensures r.Some? ==>
              var imports := Merged(req.dataset);
              r.value.batch == BatchOf(imports, |imports.keys|, PlanOf(req, page), token, secret)
  {
    if EmptyString(req.table) || req.table !in tcaTables {
      return None;
    }
    var imports := MergeFragments(req.dataset);
    var kept := SanitizeColumns(req.fields);
    var overrides := SanitizeOverrides(req.overrides, kept);
    var passwords := SanitizePasswords(req.passwordOverride, req.passwordFields, kept);
    var batch := ImportRows(imports, Plan(kept, overrides, passwords, page), token, secret);
    return Some(Inserts(req.table, batch));
  }
}
