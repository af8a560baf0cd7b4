/**
 * The client's registry (`serverConfig`): a flat table from identifier key to
 * `{name, type, value}`. Decoded event tables overwrite the `value` of entries that
 * are already present; nothing else about an entry ever changes after it is built.
 */
module Registry {
  import opened Wrappers
  import opened Bytes

  /** The current value of a control: none yet, a double (its 8 raw bytes), or a text. */
  datatype Value =
    | Null
    | Number(raw: seq<Byte>)
    | Text(bytes: seq<Byte>)

  /** One registry entry; `kind` is the entry's `type`, absent when the structure gave none. */
  datatype Entry = Entry(name: string, kind: Option<string>, value: Value)

  type Table = map<string, Entry>

  /** An update decoded from an event table: which key, and its new value. */
  datatype Update = Update(key: string, value: Value)

  /**
   * What a frame handler leaves behind: the registry afterwards (`None` while the structure
   * file has not been loaded) and the error it threw, if any.
   */
  datatype Effect = Effect(config: Option<Table>, fault: Option<Fault>)

  /** Two tables have the same keys and the same names and types under each key. */
  predicate SameShape(a: Table, b: Table)
  {
    && a.Keys == b.Keys
    && forall k :: k in a ==> a[k].name == b[k].name && a[k].kind == b[k].kind
  }

  /**
   * `ref = serverConfig[key]; if (ref) ref.value = v`: overwrite the value of an existing
   * entry; a key that is not in the table is only reported, and the table is unchanged.
   */
  function SetValue(t: Table, key: string, v: Value): (r: Table)
    ensures SameShape(t, r)
    ensures key in t ==> r[key].value == v
    ensures forall k :: k in t && k != key ==> r[k] == t[k]
  {
    if key in t then t[key := t[key].(value := v)] else t
  }

  /** The updates applied in order, as the decoding loops do. */
  function ApplyAll(t: Table, us: seq<Update>): (r: Table)
  {
    if us == [] then t
    else SetValue(ApplyAll(t, us[..|us| - 1]), us[|us| - 1].key, us[|us| - 1].value)
  }

  /** The value the last update of `key` in `us` carries, if any. */
  function LastWrite(us: seq<Update>, key: string): Option<Value>
  {
    if us == [] then None
    else if us[|us| - 1].key == key then Some(us[|us| - 1].value)
    else LastWrite(us[..|us| - 1], key)
  }

  lemma {:induction false} ApplyAllShape(t: Table, us: seq<Update>)
    ensures SameShape(t, ApplyAll(t, us))
  {
    if us != [] {
      ApplyAllShape(t, us[..|us| - 1]);
    }
  }

  /**
   * After a batch of updates every entry keeps its name and type, and holds the value of
   * the last update of its key, or its old value when no update names it.
   */
  lemma {:induction false} ApplyAllValue(t: Table, us: seq<Update>, key: string)
    requires key in t
    ensures key in ApplyAll(t, us)
    ensures ApplyAll(t, us)[key].name == t[key].name && ApplyAll(t, us)[key].kind == t[key].kind
    ensures ApplyAll(t, us)[key].value == (if LastWrite(us, key).Some? then LastWrite(us, key).value else t[key].value)
  {
    if us != [] {
      ApplyAllShape(t, us[..|us| - 1]);
      ApplyAllValue(t, us[..|us| - 1], key);
    }
  }

  /** Updates naming keys outside the table change nothing. */
  lemma {:induction false} ApplyAllMissing(t: Table, us: seq<Update>)
    requires forall i :: 0 <= i < |us| ==> us[i].key !in t
    ensures ApplyAll(t, us) == t
  {
    if us != [] {
      ApplyAllMissing(t, us[..|us| - 1]);
    }
  }

  lemma ApplyAllSnoc(t: Table, us: seq<Update>, u: Update)
    ensures ApplyAll(t, us + [u]) == SetValue(ApplyAll(t, us), u.key, u.value)
  {
    assert (us + [u])[..|us|] == us;
  }

  /** Applying two batches one after the other is applying their concatenation. */
  lemma {:induction false} ApplyAllConcat(t: Table, us: seq<Update>, vs: seq<Update>)
    ensures ApplyAll(ApplyAll(t, us), vs) == ApplyAll(t, us + vs)
  {
    if vs == [] {
      assert us + vs == us;
    } else {
      var init, last := vs[..|vs| - 1], vs[|vs| - 1];
      ApplyAllConcat(t, us, init);
      assert us + vs == (us + init) + [last];
      ApplyAllSnoc(t, us + init, last);
    }
  }
}
