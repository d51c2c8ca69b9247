/** The upload step (`uploadAction`): the field catalog offered for
    mapping, and the delete commands built when old records are purged. */
module Upload {
  import opened Php
  import opened Typo3

  /** `$disallowedFields`: workspace, timestamp, soft-delete and
      localisation columns that are never offered nor imported. */
  const Disallowed: set<string> := {
    "t3ver_oid", "tstamp", "crdate", "cruser_id", "hidden", "deleted",
    "t3ver_id", "t3ver_wsid", "t3ver_label", "t3ver_state", "t3ver_stage",
    "t3ver_count", "t3ver_tstamp", "t3ver_move_id", "t3_origuid",
    "l10n_diffsource", "l10n_source"}

  /** The extension's own label file; `uid` and `pid` take their labels from it. */
  const Locallang := "LLL:EXT:xlsimport/Resources/Private/Language/locallang.xlf:"
  const UidLabelKey := Locallang + "uid"
  const PidLabelKey := Locallang + "pid"

  const UidConfig: OrdMap<string, Column> := OrdMap(["uid"], map["uid" := Column("uid", None)])
  const PidConfig: OrdMap<string, Column> := OrdMap(["pid"], map["pid" := Column("pid", None)])

  /** The catalog handed to the mapping form. */
  datatype Catalog = Catalog(fields: OrdMap<string, Column>, passwordFields: seq<string>, hasPasswordField: bool)

  /** The field list before filtering: `uid`, then `pid` when the table's
      columns lack it, then the table's columns (`array_merge`). */
  function TcaOf(columns: OrdMap<string, Column>): (tca: OrdMap<string, Column>)
    requires Valid(columns)
    ensures Valid(tca)
  {
    if "pid" in columns.vals then ArrayMerge(UidConfig, columns)
    else ArrayMerge(ArrayMerge(UidConfig, PidConfig), columns)
  }

  /** The label of a kept field: `sL(label)`, the raw label only when `sL`
      throws, `[field]` when that is empty; `uid` and `pid` take their fixed
      locallang labels instead, and an exception from those is not caught. */
  function FieldLabel(field: string, caption: string, sL: string -> Translation): (r: Option<string>)
    ensures field != "uid" && field != "pid" ==> r.Some? && !EmptyString(r.value)
    ensures field == "uid" ==> (r.None? <==> sL(UidLabelKey).Throws?)
    ensures field == "pid" ==> (r.None? <==> sL(PidLabelKey).Throws?)
  {
    var translated := (match sL(caption) case Throws => caption case Translated(text) => text);
    var shown := if EmptyString(translated) then "[" + field + "]" else translated;
    if field == "uid" then
      match sL(UidLabelKey) case Throws => None case Translated(text) => Some(text)
    else if field == "pid" then
      match sL(PidLabelKey) case Throws => None case Translated(text) => Some(text)
    else Some(shown)
  }

  /** `in_array('password', trimExplode(',', $column['config']['eval']))`. */
  predicate IsPassword(column: Column)
  {
    column.eval.Some? && "password" in TrimExplode(column.eval.value)
  }

  /** The password fields among `keys`, in their order. */
  function PasswordsIn(keys: seq<string>, columns: map<string, Column>): (r: seq<string>)
    requires forall k :: k in keys ==> k in columns
    ensures forall f :: f in r <==> f in keys && IsPassword(columns[f])
    decreases |keys|
  {
    if keys == [] then []
    else
      var p := PasswordsIn(keys[..|keys| - 1], columns);
      if IsPassword(columns[keys[|keys| - 1]]) then p + [keys[|keys| - 1]] else p
  }

  lemma PasswordsSnoc(keys: seq<string>, field: string, columns: map<string, Column>)
    requires forall k :: k in keys ==> k in columns
    requires field in columns
    ensures PasswordsIn(keys + [field], columns)
         == if IsPassword(columns[field]) then PasswordsIn(keys, columns) + [field] else PasswordsIn(keys, columns)
  {
    assert (keys + [field])[..|keys|] == keys;
  }

  /** Every field of `keys` that is not disallowed gets a label. */
  predicate Labelled(keys: seq<string>, columns: map<string, Column>, sL: string -> Translation)
    requires forall k :: k in keys ==> k in columns
    decreases |keys|
  {
    if keys == [] then true
    else
      var field := keys[|keys| - 1];
      Labelled(keys[..|keys| - 1], columns, sL)
      && (field in Disallowed || FieldLabel(field, columns[field].caption, sL).Some?)
  }

  lemma {:induction false} LabelledAll(keys: seq<string>, columns: map<string, Column>, sL: string -> Translation)
    requires forall k :: k in keys ==> k in columns
    ensures Labelled(keys, columns, sL)
        <==> forall f :: f in keys && f !in Disallowed ==> FieldLabel(f, columns[f].caption, sL).Some?
    decreases |keys|
  {
    if keys != [] {
      var prefix := keys[..|keys| - 1];
      assert keys == prefix + [keys[|keys| - 1]];
      LabelledAll(prefix, columns, sL);
    }
  }

  /** The catalog the loop has built after visiting `keys`: each kept field
      relabelled, the password fields collected; `None` once a fixed label
      has thrown. */
  function CatalogOf(keys: seq<string>, columns: map<string, Column>, sL: string -> Translation): Option<Catalog>
    requires forall k :: k in keys ==> k in columns
    decreases |keys|
  {
    if keys == [] then Some(Catalog(Empty(), [], false))
    else
      var field := keys[|keys| - 1];
      var column := columns[field];
      match CatalogOf(keys[..|keys| - 1], columns, sL)
      case None => None
      case Some(c) =>
        if field in Disallowed then Some(c)
        else
          match FieldLabel(field, column.caption, sL)
          case None => None
          case Some(shown) =>
            var password := IsPassword(column);
            Some(Catalog(Put(c.fields, field, column.(caption := shown)),
                         if password then c.passwordFields + [field] else c.passwordFields,
                         c.hasPasswordField || password))
  }

  lemma {:induction false} CatalogOfAborts(keys: seq<string>, columns: map<string, Column>, sL: string -> Translation)
    requires forall k :: k in keys ==> k in columns
    ensures CatalogOf(keys, columns, sL).None? <==> !Labelled(keys, columns, sL)
    decreases |keys|
  {
    if keys != [] {
      CatalogOfAborts(keys[..|keys| - 1], columns, sL);
    }
  }

  lemma {:induction false} CatalogOfFields(keys: seq<string>, columns: map<string, Column>, sL: string -> Translation)
    requires Distinct(keys)
    requires forall k :: k in keys ==> k in columns
    ensures CatalogOf(keys, columns, sL).Some? ==>
              var c := CatalogOf(keys, columns, sL).value;
              Valid(c.fields) && c.fields.keys == Without(keys, Disallowed)
    decreases |keys|
  {
    if keys != [] {
      var prefix := keys[..|keys| - 1];
      var field := keys[|keys| - 1];
      DistinctInit(keys);
      TakeOneMore(keys, |keys| - 1);
      TakeAll(keys);
      CatalogOfFields(prefix, columns, sL);
      WithoutSnoc(prefix, field, Disallowed);
    }
  }

  lemma {:induction false} CatalogOfLabels(keys: seq<string>, columns: map<string, Column>, sL: string -> Translation)
    requires forall k :: k in keys ==> k in columns
    ensures CatalogOf(keys, columns, sL).Some? ==>
              var c := CatalogOf(keys, columns, sL).value;
              forall f :: f in c.fields.vals ==>
                f in columns && FieldLabel(f, columns[f].caption, sL) == Some(c.fields.vals[f].caption)
                && c.fields.vals[f].eval == columns[f].eval
    decreases |keys|
  {
    if keys != [] {
      var prefix := keys[..|keys| - 1];
      var field := keys[|keys| - 1];
      CatalogOfLabels(prefix, columns, sL);
      match CatalogOf(prefix, columns, sL)
      case None =>
      case Some(c) =>
        if field !in Disallowed && FieldLabel(field, columns[field].caption, sL).Some? {
          var shown := FieldLabel(field, columns[field].caption, sL).value;
          var fields := Put(c.fields, field, columns[field].(caption := shown));
          assert CatalogOf(keys, columns, sL).value.fields == fields;
        }
    }
  }

  lemma {:induction false} CatalogOfPasswords(keys: seq<string>, columns: map<string, Column>, sL: string -> Translation)
    requires Distinct(keys)
    requires forall k :: k in keys ==> k in columns
    ensures CatalogOf(keys, columns, sL).Some? ==>
              var c := CatalogOf(keys, columns, sL).value;
              (forall k :: k in c.fields.keys ==> k in columns)
              && c.passwordFields == PasswordsIn(c.fields.keys, columns)
              && (c.hasPasswordField <==> c.passwordFields != [])
    decreases |keys|
  {
    if keys != [] {
      var prefix := keys[..|keys| - 1];
      var field := keys[|keys| - 1];
      CatalogOfPasswords(prefix, columns, sL);
      CatalogOfFields(prefix, columns, sL);
      CatalogOfLabels(prefix, columns, sL);
      match CatalogOf(prefix, columns, sL)
      case None =>
      case Some(c) =>
        if field !in Disallowed && FieldLabel(field, columns[field].caption, sL).Some? {
          assert field !in c.fields.vals by {
            assert forall j :: 0 <= j < |prefix| ==> keys[j] != field;
          }
          assert forall k :: k in c.fields.keys ==> k in columns;
          PasswordsSnoc(c.fields.keys, field, columns);
        }
    }
  }

  /** The loop over the merged field list: drops the disallowed fields,
      resolves each kept field's label and collects the password fields. */
  method BuildCatalog(tca: OrdMap<string, Column>, sL: string -> Translation) returns (r: Option<Catalog>)
    requires Valid(tca)
    ensures r == CatalogOf(tca.keys, tca.vals, sL)
    ensures r.None? <==> !Labelled(tca.keys, tca.vals, sL)
    ensures r.Some? ==> Valid(r.value.fields) && r.value.fields.keys == Without(tca.keys, Disallowed)
    ensures r.Some? ==> forall f :: f in r.value.fields.vals ==>
              f in tca.vals && FieldLabel(f, tca.vals[f].caption, sL) == Some(r.value.fields.vals[f].caption)
              && r.value.fields.vals[f].eval == tca.vals[f].eval
    ensures r.Some? ==> r.value.passwordFields == PasswordsIn(r.value.fields.keys, tca.vals)
    ensures r.Some? ==> (r.value.hasPasswordField <==> r.value.passwordFields != [])
  {
    // Unsetting the current entry of a by-reference foreach and rewriting
    // the label of the others leaves exactly the kept entries in order;
    // they are collected here into `fields`.
    var fields: OrdMap<string, Column> := Empty();
    var passwordFields: seq<string> := [];
    var hasPasswordField := false;
    for i := 0 to |tca.keys|
      invariant CatalogOf(tca.keys[..i], tca.vals, sL) == Some(Catalog(fields, passwordFields, hasPasswordField))
    {
      var field := tca.keys[i];
      var column := tca.vals[field];
      assert tca.keys[..i + 1][..i] == tca.keys[..i];
      if field in Disallowed {
        // unset($tca[$field])
      } else {
        var shown := FieldLabel(field, column.caption, sL);
        if shown.None? {
          CatalogOfNone(tca.keys, i + 1, tca.vals, sL);
          CatalogOfAborts(tca.keys, tca.vals, sL);
          return None;
        }
        var password := IsPassword(column);
        column := column.(caption := shown.value);
        fields := Put(fields, field, column);
        if password {
          hasPasswordField := true;
          passwordFields := passwordFields + [field];
        }
      }
    }
    assert tca.keys[..|tca.keys|] == tca.keys;
    CatalogOfAborts(tca.keys, tca.vals, sL);
    CatalogOfFields(tca.keys, tca.vals, sL);
    CatalogOfLabels(tca.keys, tca.vals, sL);
    CatalogOfPasswords(tca.keys, tca.vals, sL);
    return Some(Catalog(fields, passwordFields, hasPasswordField));
  }

  /** Once the loop has aborted, it stays aborted. */
  lemma {:induction false} CatalogOfNone(keys: seq<string>, n: nat, columns: map<string, Column>, sL: string -> Translation)
    requires n <= |keys|
    requires forall k :: k in keys ==> k in columns
    requires CatalogOf(keys[..n], columns, sL).None?
    ensures CatalogOf(keys, columns, sL).None?
    decreases |keys| - n
  {
    if n < |keys| {
      TakeTake(keys, n);
      CatalogOfNone(keys, n + 1, columns, sL);
    } else {
      TakeAll(keys);
    }
  }

  /** `array_merge` of two one-entry arrays with different keys. */
  lemma MergeSingles<V>(a: OrdMap<string, V>, b: OrdMap<string, V>, k1: string, v1: V, k2: string, v2: V)
    requires k1 != k2 && a == OrdMap([k1], map[k1 := v1]) && b == OrdMap([k2], map[k2 := v2])
    ensures Valid(a) && Valid(b)
    ensures ArrayMerge(a, b).keys == [k1, k2]
  {
    assert Valid(a) && Valid(b);
    assert k2 !in a.vals.Keys;
    WithoutOne(k2, a.vals.Keys);
    assert ArrayMerge(a, b).keys == [k1] + [k2];
  }

  /** The merged field list: `uid`, `pid` when missing, then the table's
      other columns in their order. */
  lemma TcaOfKeys(columns: OrdMap<string, Column>)
    requires Valid(columns)
    ensures TcaOf(columns).keys
         == (if "pid" in columns.vals then ["uid"] + Without(columns.keys, {"uid"})
             else ["uid", "pid"] + Without(columns.keys, {"uid", "pid"}))
  {
    if "pid" !in columns.vals {
      MergeSingles(UidConfig, PidConfig, "uid", Column("uid", None), "pid", Column("pid", None));
      assert ArrayMerge(UidConfig, PidConfig).vals.Keys == {"uid", "pid"};
    } else {
      assert UidConfig.vals.Keys == {"uid"};
    }
  }

  /** The catalog's field order: the merged field list without the
      disallowed fields. */
  function CatalogKeys(columns: OrdMap<string, Column>): seq<string>
  {
    if "pid" in columns.vals then ["uid"] + Without(columns.keys, {"uid"} + Disallowed)
    else ["uid", "pid"] + Without(columns.keys, {"uid", "pid"} + Disallowed)
  }

  /** `uid` and `pid` are not disallowed. */
  lemma FixedAllowed()
    ensures "uid" !in Disallowed && "pid" !in Disallowed
    ensures forall x :: x in ["uid"] ==> x !in Disallowed
    ensures forall x :: x in ["uid", "pid"] ==> x !in Disallowed
  {
  }

  lemma TcaOfWithout(columns: OrdMap<string, Column>)
    requires Valid(columns)
    ensures Without(TcaOf(columns).keys, Disallowed)
         == (if "pid" in columns.vals then Without(["uid"] + Without(columns.keys, {"uid"}), Disallowed)
             else Without(["uid", "pid"] + Without(columns.keys, {"uid", "pid"}), Disallowed))
  {
    TcaOfKeys(columns);
  }

  /** Where `uid` and `pid` end up: `uid` first; `pid` right after it when
      the table's columns lack it, else at its own place; the table's
      other columns in their order, without the disallowed ones. */
  lemma CatalogOrder(columns: OrdMap<string, Column>)
    requires Valid(columns)
    ensures Without(TcaOf(columns).keys, Disallowed) == CatalogKeys(columns)
  {
    TcaOfWithout(columns);
    FixedAllowed();
    if "pid" in columns.vals {
      AfterHead(["uid"], columns.keys, {"uid"}, Disallowed);
    } else {
      AfterHead(["uid", "pid"], columns.keys, {"uid", "pid"}, Disallowed);
    }
  }

  /** Building the catalog fails exactly when the fixed `uid` or `pid`
      label cannot be translated: both fields are always in the list. */
  lemma FixedInTca(columns: OrdMap<string, Column>)
    requires Valid(columns)
    ensures "uid" in TcaOf(columns).keys && "pid" in TcaOf(columns).keys
  {
    TcaOfKeys(columns);
  }

  lemma CatalogAborts(columns: OrdMap<string, Column>, sL: string -> Translation)
    requires Valid(columns)
    ensures !Labelled(TcaOf(columns).keys, TcaOf(columns).vals, sL) <==> sL(UidLabelKey).Throws? || sL(PidLabelKey).Throws?
  {
    var tca := TcaOf(columns);
    FixedInTca(columns);
    LabelledAll(tca.keys, tca.vals, sL);
    FixedAllowed();
    if sL(UidLabelKey).Throws? {
      assert FieldLabel("uid", tca.vals["uid"].caption, sL).None?;
    } else if sL(PidLabelKey).Throws? {
      assert FieldLabel("pid", tca.vals["pid"].caption, sL).None?;
    } else {
      forall f | f in tca.keys && f !in Disallowed
        ensures FieldLabel(f, tca.vals[f].caption, sL).Some?
      {
      }
    }
  }

  /** Lines 195-239 of `uploadAction`: the table's TCA columns, the merged
      field list, then the loop. `tcaColumns` maps every table TCA knows to
      its columns; the lookups of lines 200 and 202 are not guarded, so a
      table TCA does not know ends in the type error they raise (`None`). */
  method FieldCatalog(tcaColumns: map<string, OrdMap<string, Column>>, table: string, sL: string -> Translation)
    returns (r: Option<Catalog>)
    requires table in tcaColumns ==> Valid(tcaColumns[table])
    ensures r.None? <==> table !in tcaColumns || sL(UidLabelKey).Throws? || sL(PidLabelKey).Throws?
    ensures r.Some? ==>
              table in tcaColumns && Valid(r.value.fields) && r.value.fields.keys == CatalogKeys(tcaColumns[table])
    ensures r.Some? ==> forall f :: f in r.value.fields.vals ==>
              f !in Disallowed && f in TcaOf(tcaColumns[table]).vals
              && FieldLabel(f, TcaOf(tcaColumns[table]).vals[f].caption, sL) == Some(r.value.fields.vals[f].caption)
              && r.value.fields.vals[f].eval == TcaOf(tcaColumns[table]).vals[f].eval
    ensures r.Some? ==> r.value.passwordFields == PasswordsIn(r.value.fields.keys, TcaOf(tcaColumns[table]).vals)
    ensures r.Some? ==> (r.value.hasPasswordField <==> r.value.passwordFields != [])
  {
    if table !in tcaColumns {
      return None;
    }
    var columns := tcaColumns[table];
    var tca := TcaOf(columns);
    CatalogOrder(columns);
    CatalogAborts(columns, sL);
    r := BuildCatalog(tca, sL);
  }

  /** `$cmd[$table][$id['uid']]['delete'] = 1`, for one table. */
  const DeleteCommand: OrdMap<string, Value> := OrdMap(["delete"], map["delete" := Int(1)])

  function UidKeys(records: seq<OrdMap<string, Value>>): seq<string>
  {
    seq(|records|, i requires 0 <= i < |records| => ArrayKey(Get(records[i], "uid")))
  }

  /** The delete command map after the records whose uids are `uids`. */
  function DeleteMap(uids: seq<string>): OrdMap<string, OrdMap<string, Value>>
    decreases |uids|
  {
    if uids == [] then Empty()
    else
      var cmd := DeleteMap(uids[..|uids| - 1]);
      var uid := uids[|uids| - 1];
      var entry := if uid in cmd.vals then cmd.vals[uid] else Empty();
      Put(cmd, uid, Put(entry, "delete", Int(1)))
  }

  /** One `delete` command per distinct uid, in the order the uids first
      occur. */
  lemma {:induction false} DeleteMapSpec(uids: seq<string>)
    ensures Valid(DeleteMap(uids))
    ensures DeleteMap(uids).keys == ArrayUnique(uids)
    ensures forall k :: k in DeleteMap(uids).vals ==> DeleteMap(uids).vals[k] == DeleteCommand
    decreases |uids|
  {
    if uids != [] {
      var p := uids[..|uids| - 1];
      var uid := uids[|uids| - 1];
      DeleteMapSpec(p);
      var cmd := DeleteMap(p);
      var entry := if uid in cmd.vals then cmd.vals[uid] else Empty();
      assert Put(entry, "delete", Int(1)) == DeleteCommand;
      assert uid in cmd.vals <==> uid in ArrayUnique(p);
    }
  }

  /** The delete command map for the records found on the page (line 183). */
  method DeleteCommands(records: seq<OrdMap<string, Value>>) returns (cmd: OrdMap<string, OrdMap<string, Value>>)
    ensures Valid(cmd)
    ensures cmd.keys == ArrayUnique(UidKeys(records))
    ensures forall k :: k in cmd.vals ==> cmd.vals[k] == DeleteCommand
  {
    cmd := Empty();
    for i := 0 to |records|
      invariant cmd == DeleteMap(UidKeys(records)[..i])
    {
      var uid := ArrayKey(Get(records[i], "uid"));
      var entry := if uid in cmd.vals then cmd.vals[uid] else Empty();
      cmd := Put(cmd, uid, Put(entry, "delete", Int(1)));
      TakeTake(UidKeys(records), i);
    }
    TakeAll(UidKeys(records));
    DeleteMapSpec(UidKeys(records));
  }
}
