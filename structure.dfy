/**
 * The structure file's control tree, and its flattening into the registry. A control has a
 * name, a type, named states (one identifier, or an array of them) and nested sub-controls.
 * JSON objects are modelled as sequences of their members in enumeration order.
 */
module Structure {
  import opened Wrappers
  import opened Bytes
  import opened Registry

  datatype StateRef = Single(uuid: string) | Many(uuids: seq<string>)

  /** One member of a control's `states` object. */
  datatype State = State(name: string, ref: StateRef)

  /** A control node; `ctype` is absent when the node has no `type`. */
  datatype Control = Control(name: string, ctype: Option<string>, states: seq<State>, subControls: seq<Item>)

  /** One member of a collection object: its key (the control's identifier) and the control. */
  datatype Item = Item(uuid: string, control: Control)

  const PrimaryState := "_primarystate_"
  const PlainState := "_state_"

  /** `prefix + (item.name || '') + ' (' + (item.type || '') + ')'`, colouring left out. */
  function DeviceName(prefix: string, c: Control): (dn: string)
    ensures prefix <= dn
  {
    prefix + c.name + " (" + (if c.ctype.Some? then c.ctype.value else "") + ")"
  }

  /** The type of a state entry: the forced type, else primary when its key is already in the table. */
  function StateKind(forced: Option<string>, seen: bool): Option<string>
  {
    if forced.Some? then forced else Some(if seen then PrimaryState else PlainState)
  }

  /** The entry of element `idx` of an array state named `name` (`deviceName::state`). */
  function ElementStep(t: Table, name: string, forced: Option<string>, u: string, idx: nat): Table
  {
    t[u := Entry(name + "[" + ToDecimal(idx) + "]", StateKind(forced, u in t), Null)]
  }

  /** The `forEach` over an array state, in index order. */
  function Elements(t: Table, name: string, forced: Option<string>, us: seq<string>): Table
  {
    if us == [] then t
    else ElementStep(Elements(t, name, forced, us[..|us| - 1]), name, forced, us[|us| - 1], |us| - 1)
  }

  function StateStep(t: Table, dn: string, forced: Option<string>, s: State): Table
  {
    match s.ref
    case Single(u) => t[u := Entry(dn + "::" + s.name, StateKind(forced, u in t), Null)]
    case Many(us) => Elements(t, dn + "::" + s.name, forced, us)
  }

  /** The `for … in item.states` loop, in order. */
  function States(t: Table, dn: string, forced: Option<string>, ss: seq<State>): Table
  {
    if ss == [] then t
    else StateStep(States(t, dn, forced, ss[..|ss| - 1]), dn, forced, ss[|ss| - 1])
  }

  /**
   * One iteration of the loop over `obj`: the control's own entry, its states, then its
   * sub-controls flattened under `deviceName + ' / '` without a forced type and merged over
   * the table.
   */
  function ParseItem(t: Table, it: Item, prefix: string, forced: Option<string>): Table
    decreases it, 0
  {
    var dn := DeviceName(prefix, it.control);
    var own := t[it.uuid := Entry(dn, if forced.Some? then forced else it.control.ctype, Null)];
    States(own, dn, forced, it.control.states) + ParseStuff(it.control.subControls, dn + " / ", None)
  }

  /** `parseConfigStuff(obj, prefix, type)`: the loop over the members of `obj`, from an empty table. */
  function ParseStuff(obj: seq<Item>, prefix: string, forced: Option<string>): Table
    decreases obj, 1
  {
    if obj == [] then map[]
    else ParseItem(ParseStuff(obj[..|obj| - 1], prefix, forced), obj[|obj| - 1], prefix, forced)
  }

  /** `parseConfigStuff`: the loop over the members of `obj`, mutating the table; the recursion is on the sub-controls. */
  method ParseConfigStuff(obj: seq<Item>, prefix: string, forced: Option<string>) returns (table: Table)
    ensures table == ParseStuff(obj, prefix, forced)
    decreases obj
  {
    table := map[];
    var k := 0;
    while k < |obj|
      invariant k <= |obj|
      invariant table == ParseStuff(obj[..k], prefix, forced)
    {
      var uuid, item := obj[k].uuid, obj[k].control;
      var deviceName := DeviceName(prefix, item);
      table := table[uuid := Entry(deviceName, if forced.Some? then forced else item.ctype, Null)];
      table := ParseStates(table, deviceName, forced, item.states);
      var sub := ParseConfigStuff(item.subControls, deviceName + " / ", None);
      table := table + sub;
      assert obj[..k + 1][..k] == obj[..k];
      k := k + 1;
    }
    assert obj[..k] == obj;
  }

  /** The loop over the states of one control. */
  method ParseStates(t: Table, deviceName: string, forced: Option<string>, states: seq<State>) returns (table: Table)
    ensures table == States(t, deviceName, forced, states)
  {
    table := t;
    var s := 0;
    while s < |states|
      invariant s <= |states|
      invariant table == States(t, deviceName, forced, states[..s])
    {
      var state := states[s];
      match state.ref {
        case Many(us) =>
          table := ParseElements(table, deviceName + "::" + state.name, forced, us);
        case Single(u) =>
          table := table[u := Entry(deviceName + "::" + state.name, StateKind(forced, u in table), Null)];
      }
      assert states[..s + 1][..s] == states[..s];
      s := s + 1;
    }
    assert states[..s] == states;
  }

  /** The `forEach` over the identifiers of an array state. */
  method ParseElements(t: Table, name: string, forced: Option<string>, us: seq<string>) returns (table: Table)
    ensures table == Elements(t, name, forced, us)
  {
    table := t;
    var idx := 0;
    while idx < |us|
      invariant idx <= |us|
      invariant table == Elements(t, name, forced, us[..idx])
    {
      var u := us[idx];
      table := table[u := Entry(name + "[" + ToDecimal(idx) + "]", StateKind(forced, u in table), Null)];
      assert us[..idx + 1][..idx] == us[..idx];
      idx := idx + 1;
    }
    assert us[..idx] == us;
  }

  /** The identifiers a state names. */
  function RefUuids(r: StateRef): set<string>
  {
    match r
    case Single(u) => {u}
    case Many(us) => set u | u in us
  }

  function StateUuids(ss: seq<State>): set<string>
  {
    if ss == [] then {} else StateUuids(ss[..|ss| - 1]) + RefUuids(ss[|ss| - 1].ref)
  }

  /** Every identifier in a control tree: member keys, state identifiers, and those of sub-controls. */
  function Uuids(obj: seq<Item>): set<string>
    decreases obj, 1
  {
    if obj == [] then {} else Uuids(obj[..|obj| - 1]) + ItemUuids(obj[|obj| - 1])
  }

  function ItemUuids(it: Item): set<string>
    decreases it, 0
  {
    {it.uuid} + StateUuids(it.control.states) + Uuids(it.control.subControls)
  }

  /** The identifiers in the sub-control trees of the members of `obj`, which are flattened without a forced type. */
  function SubUuids(obj: seq<Item>): set<string>
  {
    if obj == [] then {} else SubUuids(obj[..|obj| - 1]) + Uuids(obj[|obj| - 1].control.subControls)
  }

  lemma {:induction false} ElementsKeys(t: Table, name: string, forced: Option<string>, us: seq<string>)
    ensures Elements(t, name, forced, us).Keys == t.Keys + set u | u in us
  {
    if us != [] {
      ElementsKeys(t, name, forced, us[..|us| - 1]);
      assert us == us[..|us| - 1] + [us[|us| - 1]];
    }
  }

  lemma {:induction false} StatesKeys(t: Table, dn: string, forced: Option<string>, ss: seq<State>)
    ensures States(t, dn, forced, ss).Keys == t.Keys + StateUuids(ss)
  {
    if ss != [] {
      StatesKeys(t, dn, forced, ss[..|ss| - 1]);
      var s := ss[|ss| - 1];
      if s.ref.Many? {
        ElementsKeys(States(t, dn, forced, ss[..|ss| - 1]), dn + "::" + s.name, forced, s.ref.uuids);
      }
    }
  }

  /** The flattened table has an entry for exactly the identifiers of the tree. */
  lemma {:induction false} ParseKeys(obj: seq<Item>, prefix: string, forced: Option<string>)
    ensures ParseStuff(obj, prefix, forced).Keys == Uuids(obj)
    decreases obj, 1
  {
    if obj != [] {
      ParseKeys(obj[..|obj| - 1], prefix, forced);
      ItemKeys(ParseStuff(obj[..|obj| - 1], prefix, forced), obj[|obj| - 1], prefix, forced);
    }
  }

  lemma {:induction false} ItemKeys(t: Table, it: Item, prefix: string, forced: Option<string>)
    ensures ParseItem(t, it, prefix, forced).Keys == t.Keys + ItemUuids(it)
    decreases it, 0
  {
    var dn := DeviceName(prefix, it.control);
    var own := t[it.uuid := Entry(dn, if forced.Some? then forced else it.control.ctype, Null)];
    StatesKeys(own, dn, forced, it.control.states);
    ParseKeys(it.control.subControls, dn + " / ", None);
  }

  /**
   * What every entry of a table built under `prefix` looks like: no value yet, a name that
   * extends the prefix, and the forced type, if one is given, on every key outside `exempt`.
   */
  predicate Flattened(t: Table, prefix: string, forced: Option<string>, exempt: set<string>)
  {
    forall k :: k in t ==>
      && t[k].value == Null
      && prefix <= t[k].name
      && (forced.Some? && k !in exempt ==> t[k].kind == forced)
  }

  lemma PrefixOfConcat(p: string, a: string, b: string)
    requires p <= a
    ensures p <= a + b
  {
    assert (a + b)[..|p|] == a[..|p|];
  }

  lemma PrefixTransitive(p: string, q: string, r: string)
    requires p <= q && q <= r
    ensures p <= r
  {
  }

  lemma {:induction false} ElementsFlattened(t: Table, name: string, forced: Option<string>, us: seq<string>,
                                             prefix: string, exempt: set<string>)
    requires Flattened(t, prefix, forced, exempt) && prefix <= name
    ensures Flattened(Elements(t, name, forced, us), prefix, forced, exempt)
  {
    if us != [] {
      ElementsFlattened(t, name, forced, us[..|us| - 1], prefix, exempt);
      PrefixOfConcat(prefix, name, "[" + ToDecimal(|us| - 1) + "]");
    }
  }

  lemma {:induction false} StatesFlattened(t: Table, dn: string, forced: Option<string>, ss: seq<State>,
                                           prefix: string, exempt: set<string>)
    requires Flattened(t, prefix, forced, exempt) && prefix <= dn
    ensures Flattened(States(t, dn, forced, ss), prefix, forced, exempt)
  {
    if ss != [] {
      var s := ss[|ss| - 1];
      StatesFlattened(t, dn, forced, ss[..|ss| - 1], prefix, exempt);
      PrefixOfConcat(prefix, dn, "::" + s.name);
      if s.ref.Many? {
        ElementsFlattened(States(t, dn, forced, ss[..|ss| - 1]), dn + "::" + s.name, forced, s.ref.uuids, prefix, exempt);
      }
    }
  }

  /**
   * Every entry of `parseConfigStuff(obj, prefix, type)` has a null value and a name that
   * starts with `prefix`; a forced type is the type of every entry except those that come
   * from sub-controls, which are flattened without it.
   */
  lemma {:induction false} ParseFlattened(obj: seq<Item>, prefix: string, forced: Option<string>)
    ensures Flattened(ParseStuff(obj, prefix, forced), prefix, forced, SubUuids(obj))
    decreases obj, 1
  {
    if obj != [] {
      var init := obj[..|obj| - 1];
      ParseFlattened(init, prefix, forced);
      ItemFlattened(ParseStuff(init, prefix, forced), obj[|obj| - 1], prefix, forced, SubUuids(obj));
    }
  }

  lemma {:induction false} ItemFlattened(t: Table, it: Item, prefix: string, forced: Option<string>, exempt: set<string>)
    requires Flattened(t, prefix, forced, exempt) && Uuids(it.control.subControls) <= exempt
    ensures Flattened(ParseItem(t, it, prefix, forced), prefix, forced, exempt)
    decreases it, 0
  {
    var dn := DeviceName(prefix, it.control);
    var own := t[it.uuid := Entry(dn, if forced.Some? then forced else it.control.ctype, Null)];
    StatesFlattened(own, dn, forced, it.control.states, prefix, exempt);
    var subs := it.control.subControls;
    ParseFlattened(subs, dn + " / ", None);
    ParseKeys(subs, dn + " / ", None);
    var sub := ParseStuff(subs, dn + " / ", None);
    forall k | k in sub
      ensures prefix <= sub[k].name
    {
      PrefixOfConcat(prefix, dn, " / ");
      PrefixTransitive(prefix, dn + " / ", sub[k].name);
    }
  }

  /** One write of the states loop: the key it fills, and the name it gives the entry. */
  datatype Ref = Ref(uuid: string, name: string)

  /** The writes of an array state named `name`: element `idx` is named `name[idx]`. */
  function ElementRefs(name: string, us: seq<string>): (rs: seq<Ref>)
    ensures |rs| == |us|
  {
    if us == [] then []
    else ElementRefs(name, us[..|us| - 1]) + [Ref(us[|us| - 1], name + "[" + ToDecimal(|us| - 1) + "]")]
  }

  /** The writes of one state: `dn::state` for a single identifier, `dn::state[idx]` for an array. */
  function StateRefs(dn: string, s: State): seq<Ref>
  {
    match s.ref
    case Single(u) => [Ref(u, dn + "::" + s.name)]
    case Many(us) => ElementRefs(dn + "::" + s.name, us)
  }

  /** Every write the states of a control make, in the order the loops make them. */
  function Refs(dn: string, ss: seq<State>): seq<Ref>
  {
    if ss == [] then [] else Refs(dn, ss[..|ss| - 1]) + StateRefs(dn, ss[|ss| - 1])
  }

  /** How many of the writes fill `u`. */
  function Count(rs: seq<Ref>, u: string): nat
  {
    if rs == [] then 0 else Count(rs[..|rs| - 1], u) + (if rs[|rs| - 1].uuid == u then 1 else 0)
  }

  /** The name the last write filling `u` gives it. */
  function LastName(rs: seq<Ref>, u: string): string
    requires Count(rs, u) > 0
  {
    if rs[|rs| - 1].uuid == u then rs[|rs| - 1].name else LastName(rs[..|rs| - 1], u)
  }

  /** The writes made one after the other, each typed by whether its key is present at that moment. */
  function WriteRefs(t: Table, forced: Option<string>, rs: seq<Ref>): Table
  {
    if rs == [] then t
    else
      var before := WriteRefs(t, forced, rs[..|rs| - 1]);
      var r := rs[|rs| - 1];
      before[r.uuid := Entry(r.name, StateKind(forced, r.uuid in before), Null)]
  }

  lemma {:induction false} WriteRefsConcat(t: Table, forced: Option<string>, a: seq<Ref>, b: seq<Ref>)
    ensures WriteRefs(t, forced, a + b) == WriteRefs(WriteRefs(t, forced, a), forced, b)
  {
    if b == [] {
      assert a + b == a;
    } else {
      assert (a + b)[..|a + b| - 1] == a + b[..|b| - 1];
      WriteRefsConcat(t, forced, a, b[..|b| - 1]);
    }
  }

  lemma {:induction false} CountConcat(a: seq<Ref>, b: seq<Ref>, u: string)
    ensures Count(a + b, u) == Count(a, u) + Count(b, u)
  {
    if b == [] {
      assert a + b == a;
    } else {
      assert (a + b)[..|a + b| - 1] == a + b[..|b| - 1];
      CountConcat(a, b[..|b| - 1], u);
    }
  }

  /** The last write filling `u` is in `b` when `b` fills it, and in `a` otherwise. */
  lemma {:induction false} LastNameConcat(a: seq<Ref>, b: seq<Ref>, u: string)
    requires Count(a + b, u) > 0
    ensures Count(b, u) > 0 ==> LastName(a + b, u) == LastName(b, u)
    ensures Count(b, u) == 0 ==> Count(a, u) > 0 && LastName(a + b, u) == LastName(a, u)
  {
    CountConcat(a, b, u);
    if b == [] {
      assert a + b == a;
    } else {
      var b' := b[..|b| - 1];
      assert (a + b)[..|a + b| - 1] == a + b';
      if b[|b| - 1].uuid != u {
        CountConcat(a, b', u);
        LastNameConcat(a, b', u);
      }
    }
  }

  /** The array state's forEach is its writes, in index order. */
  lemma {:induction false} ElementsAsWrites(t: Table, name: string, forced: Option<string>, us: seq<string>)
    ensures Elements(t, name, forced, us) == WriteRefs(t, forced, ElementRefs(name, us))
  {
    if us != [] {
      ElementsAsWrites(t, name, forced, us[..|us| - 1]);
      var rs := ElementRefs(name, us);
      assert rs[..|rs| - 1] == ElementRefs(name, us[..|us| - 1]);
    }
  }

  /** The states loop is its writes, in order. */
  lemma {:induction false} StatesAsWrites(t: Table, dn: string, forced: Option<string>, ss: seq<State>)
    ensures States(t, dn, forced, ss) == WriteRefs(t, forced, Refs(dn, ss))
  {
    if ss != [] {
      var init, s := ss[..|ss| - 1], ss[|ss| - 1];
      StatesAsWrites(t, dn, forced, init);
      WriteRefsConcat(t, forced, Refs(dn, init), StateRefs(dn, s));
      match s.ref
      case Single(u) =>
        assert [Ref(u, dn + "::" + s.name)][..0] == [];
      case Many(us) =>
        ElementsAsWrites(States(t, dn, forced, init), dn + "::" + s.name, forced, us);
    }
  }

  /**
   * A key no write fills keeps its entry; a key some write fills gets the last write's name,
   * and the type its last write computed: primary exactly when the key was present before
   * the writes or was written before.
   */
  lemma {:induction false} WriteRefsEntry(t: Table, forced: Option<string>, rs: seq<Ref>, u: string)
    ensures var r := WriteRefs(t, forced, rs);
      && (u in r <==> u in t || Count(rs, u) > 0)
      && (Count(rs, u) == 0 && u in t ==> r[u] == t[u])
      && (Count(rs, u) > 0 ==>
            u in r && r[u] == Entry(LastName(rs, u), StateKind(forced, u in t || Count(rs, u) > 1), Null))
  {
    if rs != [] {
      WriteRefsEntry(t, forced, rs[..|rs| - 1], u);
    }
  }

  lemma {:induction false} ElementRefsCount(name: string, us: seq<string>, u: string)
    ensures Count(ElementRefs(name, us), u) > 0 <==> u in us
  {
    if us != [] {
      var init := us[..|us| - 1];
      ElementRefsCount(name, init, u);
      var rs := ElementRefs(name, us);
      assert rs[..|rs| - 1] == ElementRefs(name, init);
      assert us == init + [us[|us| - 1]];
    }
  }

  /** The writes fill exactly the identifiers the states reference. */
  lemma {:induction false} RefsCount(dn: string, ss: seq<State>, u: string)
    ensures Count(Refs(dn, ss), u) > 0 <==> u in StateUuids(ss)
  {
    if ss != [] {
      var init, s := ss[..|ss| - 1], ss[|ss| - 1];
      RefsCount(dn, init, u);
      CountConcat(Refs(dn, init), StateRefs(dn, s), u);
      match s.ref
      case Single(v) =>
        assert [Ref(v, dn + "::" + s.name)][..0] == [];
      case Many(us) =>
        ElementRefsCount(dn + "::" + s.name, us, u);
    }
  }

  /**
   * The state rule without a forced type: a key the states of a control reference ends up with
   * the name of its last reference and a null value, typed `_state_` exactly when it was not in
   * the table before and is referenced once, and `_primarystate_` otherwise. Every other key
   * keeps its entry.
   */
  lemma StatesEntry(t: Table, dn: string, ss: seq<State>, u: string)
    ensures var r, rs := States(t, dn, None, ss), Refs(dn, ss);
      && (Count(rs, u) > 0 <==> u in StateUuids(ss))
      && (u in r <==> u in t || u in StateUuids(ss))
      && (u !in StateUuids(ss) && u in t ==> r[u] == t[u])
      && (Count(rs, u) > 0 ==>
            && u in r && r[u].value == Null && r[u].name == LastName(rs, u)
            && (r[u].kind == Some(PlainState) <==> u !in t && Count(rs, u) == 1)
            && (r[u].kind != Some(PlainState) ==> r[u].kind == Some(PrimaryState)))
  {
    StatesAsWrites(t, dn, None, ss);
    RefsCount(dn, ss, u);
    WriteRefsEntry(t, None, Refs(dn, ss), u);
  }

  /** Element `idx` of an array state is written under the name `name[idx]`. */
  lemma {:induction false} ElementRefsAt(name: string, us: seq<string>, idx: nat)
    requires idx < |us|
    ensures ElementRefs(name, us)[idx] == Ref(us[idx], name + "[" + ToDecimal(idx) + "]")
  {
    if idx < |us| - 1 {
      ElementRefsAt(name, us[..|us| - 1], idx);
    }
  }

  /** In an array state, the name a key ends up with comes from the last index holding it. */
  lemma {:induction false} ElementLastName(name: string, us: seq<string>, idx: nat)
    requires idx < |us| && forall j :: idx < j < |us| ==> us[j] != us[idx]
    ensures Count(ElementRefs(name, us), us[idx]) > 0
    ensures LastName(ElementRefs(name, us), us[idx]) == name + "[" + ToDecimal(idx) + "]"
  {
    var u, init := us[idx], us[..|us| - 1];
    var rs := ElementRefs(name, us);
    assert rs[..|rs| - 1] == ElementRefs(name, init);
    if idx < |us| - 1 {
      assert init[idx] == u;
      ElementLastName(name, init, idx);
    }
  }

  /** One state writes `u` exactly when it references `u`. */
  lemma StateRefsCount(dn: string, s: State, u: string)
    ensures Count(StateRefs(dn, s), u) > 0 <==> u in RefUuids(s.ref)
  {
    match s.ref
    case Single(v) =>
      assert [Ref(v, dn + "::" + s.name)][..0] == [];
    case Many(us) =>
      ElementRefsCount(dn + "::" + s.name, us, u);
  }

  /** The name a key ends up with comes from the last state that references it. */
  lemma {:induction false} LastStateName(dn: string, ss: seq<State>, j: nat, u: string)
    requires j < |ss| && u in RefUuids(ss[j].ref)
    requires forall k :: j < k < |ss| ==> u !in RefUuids(ss[k].ref)
    ensures Count(StateRefs(dn, ss[j]), u) > 0 && Count(Refs(dn, ss), u) > 0
    ensures LastName(Refs(dn, ss), u) == LastName(StateRefs(dn, ss[j]), u)
  {
    var init, s := ss[..|ss| - 1], ss[|ss| - 1];
    CountConcat(Refs(dn, init), StateRefs(dn, s), u);
    StateRefsCount(dn, ss[j], u);
    if j < |ss| - 1 {
      StateRefsCount(dn, s, u);
      assert init[j] == ss[j];
      LastStateName(dn, init, j, u);
    }
    LastNameConcat(Refs(dn, init), StateRefs(dn, s), u);
  }

  /**
   * The naming rule: with `ss[j]` the last state referencing `u`, the entry is named
   * `dn::state` for a single identifier and `dn::state[idx]` for an array, `idx` being the
   * last index holding `u`.
   */
  lemma StateEntryName(t: Table, dn: string, ss: seq<State>, j: nat, u: string)
    requires j < |ss| && u in RefUuids(ss[j].ref)
    requires forall k :: j < k < |ss| ==> u !in RefUuids(ss[k].ref)
    ensures u in States(t, dn, None, ss)
    ensures ss[j].ref.Single? ==> States(t, dn, None, ss)[u].name == dn + "::" + ss[j].name
    ensures forall idx :: ss[j].ref.Many? && 0 <= idx < |ss[j].ref.uuids| && ss[j].ref.uuids[idx] == u
                          && (forall i :: idx < i < |ss[j].ref.uuids| ==> ss[j].ref.uuids[i] != u) ==>
              States(t, dn, None, ss)[u].name == dn + "::" + ss[j].name + "[" + ToDecimal(idx) + "]"
  {
    LastStateName(dn, ss, j, u);
    StatesEntry(t, dn, ss, u);
    if ss[j].ref.Many? {
      var us := ss[j].ref.uuids;
      forall idx | 0 <= idx < |us| && us[idx] == u && (forall i :: idx < i < |us| ==> us[i] != u)
        ensures States(t, dn, None, ss)[u].name == dn + "::" + ss[j].name + "[" + ToDecimal(idx) + "]"
      {
        ElementLastName(dn + "::" + ss[j].name, us, idx);
      }
    }
  }

  /**
   * A control's own entry, under a key none of its states or sub-controls reuse: its device
   * name, the forced type or else its own `type`, and no value.
   */
  lemma ItemOwnEntry(t: Table, it: Item, prefix: string, forced: Option<string>)
    requires it.uuid !in StateUuids(it.control.states) + Uuids(it.control.subControls)
    ensures it.uuid in ParseItem(t, it, prefix, forced)
    ensures ParseItem(t, it, prefix, forced)[it.uuid]
         == Entry(DeviceName(prefix, it.control), if forced.Some? then forced else it.control.ctype, Null)
  {
    var dn := DeviceName(prefix, it.control);
    var own := t[it.uuid := Entry(dn, if forced.Some? then forced else it.control.ctype, Null)];
    StatesAsWrites(own, dn, forced, it.control.states);
    RefsCount(dn, it.control.states, it.uuid);
    WriteRefsEntry(own, forced, Refs(dn, it.control.states), it.uuid);
    ParseKeys(it.control.subControls, dn + " / ", None);
  }

  /** A control with its own identifier as a state, an array state repeating an identifier, and a sub-control. */
  function SampleItem(): Item
  {
    Item("u1", Control("Light", Some("Switch"),
                       [State("active", Single("u1")), State("pos", Many(["u2", "u2"]))],
                       [Item("u3", Control("Sub", None, [State("on", Single("u4"))], []))]))
  }

  lemma SampleNames()
    ensures DeviceName("", SampleItem().control) == "Light (Switch)"
    ensures DeviceName("Light (Switch) / ", SampleItem().control.subControls[0].control) == "Light (Switch) / Sub ()"
  {
  }

  lemma SampleSubControls()
    ensures ParseStuff(SampleItem().control.subControls, "Light (Switch) / ", None) == map[
      "u3" := Entry("Light (Switch) / Sub ()", None, Null),
      "u4" := Entry("Light (Switch) / Sub ()::on", Some(PlainState), Null)]
  {
    var sub := SampleItem().control.subControls;
    SampleNames();
    var sdn := "Light (Switch) / Sub ()";
    var ss := sub[0].control.states;
    assert ss[..0] == [];
    assert States(map["u3" := Entry(sdn, None, Null)], sdn, None, ss) == map[
      "u3" := Entry(sdn, None, Null), "u4" := Entry(sdn + "::" + "on", Some(PlainState), Null)];
    assert sdn + "::" + "on" == "Light (Switch) / Sub ()::on";
    assert sub[..0] == [];
  }

  lemma SampleStates()
    ensures var dn := "Light (Switch)";
      States(map["u1" := Entry(dn, Some("Switch"), Null)], dn, None, SampleItem().control.states) == map[
        "u1" := Entry("Light (Switch)::active", Some(PrimaryState), Null),
        "u2" := Entry("Light (Switch)::pos[1]", Some(PrimaryState), Null)]
  {
    var dn := "Light (Switch)";
    var own := map["u1" := Entry(dn, Some("Switch"), Null)];
    var ss := SampleItem().control.states;
    assert ss[..1][..0] == [] && ss[..1] == [ss[0]];
    var first := own["u1" := Entry(dn + "::" + "active", Some(PrimaryState), Null)];
    assert States(own, dn, None, ss[..1]) == first;
    var us := ["u2", "u2"];
    assert us[..1][..0] == [] && us[..1] == ["u2"];
    assert ToDecimal(0) == "0" && ToDecimal(1) == "1";
    var name := dn + "::" + "pos";
    var second := first["u2" := Entry(name + "[" + "0" + "]", Some(PlainState), Null)];
    assert Elements(first, name, None, us[..1]) == second;
    assert Elements(first, name, None, us) == second["u2" := Entry(name + "[" + "1" + "]", Some(PrimaryState), Null)];
    assert dn + "::" + "active" == "Light (Switch)::active";
    assert name + "[" + "1" + "]" == "Light (Switch)::pos[1]";
  }

  /**
   * A state sharing its control's identifier, and a repeated array element, become primary
   * states; a sub-control is named under its parent with ` / ` and keeps its own type.
   */
  lemma SampleFlattening()
    ensures ParseStuff([SampleItem()], "", None) == map[
      "u1" := Entry("Light (Switch)::active", Some(PrimaryState), Null),
      "u2" := Entry("Light (Switch)::pos[1]", Some(PrimaryState), Null),
      "u3" := Entry("Light (Switch) / Sub ()", None, Null),
      "u4" := Entry("Light (Switch) / Sub ()::on", Some(PlainState), Null)]
  {
    var dn := DeviceName("", SampleItem().control);
    SampleNames();
    assert dn + " / " == "Light (Switch) / ";
    SampleSubControls();
    SampleStates();
    assert [SampleItem()][..0] == [];
    assert map[]["u1" := Entry(dn, Some("Switch"), Null)] == map["u1" := Entry(dn, Some("Switch"), Null)];
  }

  /**
   * The parts of the structure file the registry is built from; a missing collection is
   * empty. `weatherServer` holds the states of the `weatherServer` object, and is `None`
   * when the structure has no such object.
   */
  datatype Config = Config(
    controls: seq<Item>, mediaServer: seq<Item>, rooms: seq<Item>, cats: seq<Item>, autopilot: seq<Item>,
    weatherServer: Option<seq<State>>, globalStates: seq<State>)

  /** The temporary key under which the weather server's and the global states are flattened. */
  const FakeUuid := "__"

  function FakeItem(name: string, ctype: string, states: seq<State>): seq<Item>
  {
    [Item(FakeUuid, Control(name, Some(ctype), states, []))]
  }

  /** The five collections merged in order, later keys overriding earlier ones. */
  function Groups(cfg: Config): Table
  {
    ParseStuff(cfg.controls, "", None)
    + ParseStuff(cfg.mediaServer, "(MediaServer) ", None)
    + ParseStuff(cfg.rooms, "(Room) ", Some("_room_"))
    + ParseStuff(cfg.cats, "(Category) ", Some("_category_"))
    + ParseStuff(cfg.autopilot, "(autopilot) ", Some("_autopilot_"))
  }

  /**
   * `saveServerConfig`: the merged collections, then the weather server's states and the
   * global states, each flattened under the fake key that is deleted right after. Reading
   * the states of a missing `weatherServer` throws.
   */
  function BuildRegistry(cfg: Config): (r: Result<Table, Fault>)
    ensures r.Ok? <==> cfg.weatherServer.Some?
    ensures r.Err? ==> r.error == TypeError
    ensures r.Ok? ==> FakeUuid !in r.value
  {
    if cfg.weatherServer.None? then Err(TypeError)
    else
      var weather := (Groups(cfg) + ParseStuff(FakeItem("WeatherServer", "WeatherServer", cfg.weatherServer.value),
                                               "(WeatherServer) ", None)) - {FakeUuid};
      Ok((weather + ParseStuff(FakeItem("GlobalState", "", cfg.globalStates), "(GlobalStates) ", None)) - {FakeUuid})
  }

  lemma FakeKeys(name: string, ctype: string, states: seq<State>, prefix: string)
    ensures ParseStuff(FakeItem(name, ctype, states), prefix, None).Keys == {FakeUuid} + StateUuids(states)
  {
    var obj := FakeItem(name, ctype, states);
    ParseKeys(obj, prefix, None);
    assert obj[..0] == [];
    assert Uuids(obj) == ItemUuids(obj[0]);
    assert obj[0].control.subControls == [];
  }

  /** The identifiers of the five collections, in merge order. */
  function GroupUuids(cfg: Config): set<string>
  {
    Uuids(cfg.controls) + Uuids(cfg.mediaServer) + Uuids(cfg.rooms) + Uuids(cfg.cats) + Uuids(cfg.autopilot)
  }

  /**
   * The saved registry has an entry for every identifier in the structure (collections,
   * weather server states, global states) and for nothing else; the fake key is gone.
   */
  lemma RegistryKeys(cfg: Config)
    requires cfg.weatherServer.Some?
    ensures BuildRegistry(cfg).value.Keys
         == (GroupUuids(cfg) + StateUuids(cfg.weatherServer.value) + StateUuids(cfg.globalStates)) - {FakeUuid}
  {
    ParseKeys(cfg.controls, "", None);
    ParseKeys(cfg.mediaServer, "(MediaServer) ", None);
    ParseKeys(cfg.rooms, "(Room) ", Some("_room_"));
    ParseKeys(cfg.cats, "(Category) ", Some("_category_"));
    ParseKeys(cfg.autopilot, "(autopilot) ", Some("_autopilot_"));
    FakeKeys("WeatherServer", "WeatherServer", cfg.weatherServer.value, "(WeatherServer) ");
    FakeKeys("GlobalState", "", cfg.globalStates, "(GlobalStates) ");
  }

  /** Every entry of a freshly saved registry still waits for its first value. */
  lemma RegistryFresh(cfg: Config)
    requires cfg.weatherServer.Some?
    ensures forall k :: k in BuildRegistry(cfg).value ==> BuildRegistry(cfg).value[k].value == Null
  {
    ParseFlattened(cfg.controls, "", None);
    ParseFlattened(cfg.mediaServer, "(MediaServer) ", None);
    ParseFlattened(cfg.rooms, "(Room) ", Some("_room_"));
    ParseFlattened(cfg.cats, "(Category) ", Some("_category_"));
    ParseFlattened(cfg.autopilot, "(autopilot) ", Some("_autopilot_"));
    ParseFlattened(FakeItem("WeatherServer", "WeatherServer", cfg.weatherServer.value), "(WeatherServer) ", None);
    ParseFlattened(FakeItem("GlobalState", "", cfg.globalStates), "(GlobalStates) ", None);
  }

  /** An identifier that no weather server or global state names keeps the entry the collections gave it. */
  lemma FromGroups(cfg: Config)
    requires cfg.weatherServer.Some?
    ensures forall k :: k in BuildRegistry(cfg).value && k !in StateUuids(cfg.weatherServer.value) + StateUuids(cfg.globalStates)
              ==> k in Groups(cfg) && BuildRegistry(cfg).value[k] == Groups(cfg)[k]
  {
    FakeKeys("WeatherServer", "WeatherServer", cfg.weatherServer.value, "(WeatherServer) ");
    FakeKeys("GlobalState", "", cfg.globalStates, "(GlobalStates) ");
  }

  /**
   * Rooms, categories and autopilot rules carry their forced type, unless the identifier
   * comes from one of their sub-controls or a later part of the structure overrides it.
   */
  lemma GroupKinds(cfg: Config)
    requires cfg.weatherServer.Some?
    ensures var reg, late := BuildRegistry(cfg).value, StateUuids(cfg.weatherServer.value) + StateUuids(cfg.globalStates);
      && (forall k :: (k in reg && k in Uuids(cfg.rooms) && k !in SubUuids(cfg.rooms)
                       && k !in Uuids(cfg.cats) + Uuids(cfg.autopilot) + late) ==> reg[k].kind == Some("_room_"))
      && (forall k :: (k in reg && k in Uuids(cfg.cats) && k !in SubUuids(cfg.cats)
                       && k !in Uuids(cfg.autopilot) + late) ==> reg[k].kind == Some("_category_"))
      && (forall k :: (k in reg && k in Uuids(cfg.autopilot) && k !in SubUuids(cfg.autopilot)
                       && k !in late) ==> reg[k].kind == Some("_autopilot_"))
  {
    FromGroups(cfg);
    ParseKeys(cfg.rooms, "(Room) ", Some("_room_"));
    ParseKeys(cfg.cats, "(Category) ", Some("_category_"));
    ParseKeys(cfg.autopilot, "(autopilot) ", Some("_autopilot_"));
    ParseFlattened(cfg.rooms, "(Room) ", Some("_room_"));
    ParseFlattened(cfg.cats, "(Category) ", Some("_category_"));
    ParseFlattened(cfg.autopilot, "(autopilot) ", Some("_autopilot_"));
  }
}
