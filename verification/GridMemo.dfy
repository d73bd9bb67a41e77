/** The per-extraction grid memo: one slot per distinct grid definition, shared by
    every field on that grid. */
module GridMemo {
  import opened Basics

  /** A double as its three fields; distinct bit patterns are distinct values. */
  datatype Fields = Fields(negative: bool, exponent: nat, mantissa: nat)

  type Double = f: Fields | f.exponent < 0x800 && f.mantissa < 0x10_0000_0000_0000 witness Fields(false, 0, 0)

  /** The 64-bit pattern of a double: sign, exponent, mantissa. */
  function ToBits(f: Double): nat {
    (if f.negative then 0x8000_0000_0000_0000 else 0) + f.exponent * 0x10_0000_0000_0000 + f.mantissa
  }

  lemma ToBitsInjective(f: Double, g: Double)
    ensures ToBits(f) == ToBits(g) <==> f == g
  {
  }

  /** A parsed grid definition, field by field. */
  datatype GridDefinition = GridDefinition(
    template: nat, nx: nat, ny: nat,
    lat1: Double, lon1: Double, lat2: Double, lon2: Double, dx: Double, dy: Double,
    latin1: Double, latin2: Double, lov: Double,
    scanMode: nat, lad: Double, projectionCenterFlag: nat, nParallel: nat,
    southPoleLat: Double, southPoleLon: Double, rotationAngle: Double,
    satelliteLat: Double, satelliteLon: Double, xp: Double, yp: Double, altitude: Double,
    pl: Option<seq<nat>>, isReduced: bool, numDataPoints: nat, shapeOfEarth: nat, resolutionFlags: nat)

  /** The memo key: integers as they are, doubles as bit patterns. */
  datatype GridMemoKey = GridMemoKey(
    template: nat, nx: nat, ny: nat,
    lat1: nat, lon1: nat, lat2: nat, lon2: nat, dx: nat, dy: nat,
    latin1: nat, latin2: nat, lov: nat,
    scanMode: nat, lad: nat, projectionCenterFlag: nat, nParallel: nat,
    southPoleLat: nat, southPoleLon: nat, rotationAngle: nat,
    satelliteLat: nat, satelliteLon: nat, xp: nat, yp: nat, altitude: nat,
    pl: Option<seq<nat>>, isReduced: bool, numDataPoints: nat, shapeOfEarth: nat, resolutionFlags: nat)

  function KeyOf(g: GridDefinition): GridMemoKey {
    GridMemoKey(
      g.template, g.nx, g.ny,
      ToBits(g.lat1), ToBits(g.lon1), ToBits(g.lat2), ToBits(g.lon2), ToBits(g.dx), ToBits(g.dy),
      ToBits(g.latin1), ToBits(g.latin2), ToBits(g.lov),
      g.scanMode, ToBits(g.lad), g.projectionCenterFlag, g.nParallel,
      ToBits(g.southPoleLat), ToBits(g.southPoleLon), ToBits(g.rotationAngle),
      ToBits(g.satelliteLat), ToBits(g.satelliteLon), ToBits(g.xp), ToBits(g.yp), ToBits(g.altitude),
      g.pl, g.isReduced, g.numDataPoints, g.shapeOfEarth, g.resolutionFlags)
  }

  /** The key leaves nothing out: equal keys mean equal definitions. */
  lemma KeyInjective(g: GridDefinition, h: GridDefinition)
    ensures KeyOf(g) == KeyOf(h) <==> g == h
  {
    hide ToBits;
    ToBitsInjective(g.lat1, h.lat1);
    ToBitsInjective(g.lon1, h.lon1);
    ToBitsInjective(g.lat2, h.lat2);
    ToBitsInjective(g.lon2, h.lon2);
    ToBitsInjective(g.dx, h.dx);
    ToBitsInjective(g.dy, h.dy);
    ToBitsInjective(g.latin1, h.latin1);
    ToBitsInjective(g.latin2, h.latin2);
    ToBitsInjective(g.lov, h.lov);
    ToBitsInjective(g.lad, h.lad);
    ToBitsInjective(g.southPoleLat, h.southPoleLat);
    ToBitsInjective(g.southPoleLon, h.southPoleLon);
    ToBitsInjective(g.rotationAngle, h.rotationAngle);
    ToBitsInjective(g.satelliteLat, h.satelliteLat);
    ToBitsInjective(g.satelliteLon, h.satelliteLon);
    ToBitsInjective(g.xp, h.xp);
    ToBitsInjective(g.yp, h.yp);
    ToBitsInjective(g.altitude, h.altitude);
  }

  datatype LatLonGrid = LatLonGrid(nx: nat, ny: nat, lat: seq<real>, lon: seq<real>)

  datatype Entry = Entry(grid: LatLonGrid, rowWraps: seq<nat>)

  datatype Slot = Slot(entry: Entry, projection: Option<string>)

  datatype Message = Message(grid: GridDefinition, packed: seq<nat>)

  /** The foreign and per-field steps: building coordinates, reading the projection,
      unpacking, and arranging values by scan mode, row wraps and units. */
  datatype Codec = Codec(
    build: GridDefinition -> Option<Entry>,
    projection: GridDefinition -> Option<string>,
    unpack: Message -> Option<seq<real>>,
    arrange: (Message, seq<real>, seq<nat>) -> seq<real>)

  datatype FieldValues = FieldValues(selector: nat, values: seq<real>, gridIndex: nat)

  datatype SelectedField = SelectedField(selector: nat, grid: LatLonGrid, values: seq<real>, projection: Option<string>)

  function SlotFor(codec: Codec, g: GridDefinition): Option<Slot> {
    var entry := codec.build(g);
    if entry.None? then None else Some(Slot(entry.value, codec.projection(g)))
  }

  /** The values of a message on a given slot. */
  function ValuesOn(codec: Codec, m: Message, slot: Slot): Option<seq<real>> {
    var raw := codec.unpack(m);
    if raw.None? then None
    else
      var values := codec.arrange(m, raw.value, slot.entry.rowWraps);
      if |values| != slot.entry.grid.nx * slot.entry.grid.ny then None else Some(values)
  }

  /** The field a selector gets from its message, building the message's own grid from
      scratch. */
  function FromScratch(codec: Codec, selector: nat, m: Message): Option<SelectedField> {
    var slot := SlotFor(codec, m.grid);
    if slot.None? then None
    else
      var values := ValuesOn(codec, m, slot.value);
      if values.None? then None
      else Some(SelectedField(selector, slot.value.entry.grid, values.value, slot.value.projection))
  }

  /** A field exists exactly if its grid can be built, its message unpacked, and the
      arranged values fill the grid; it then carries that grid and projection. */
  lemma FromScratchExactly(codec: Codec, selector: nat, m: Message, f: SelectedField)
    ensures FromScratch(codec, selector, m) == Some(f) <==>
      && codec.build(m.grid).Some? && codec.unpack(m).Some?
      && var Entry(grid, wraps) := codec.build(m.grid).value;
      && f == SelectedField(selector, grid, codec.arrange(m, codec.unpack(m).value, wraps), codec.projection(m.grid))
      && |f.values| == f.grid.nx * f.grid.ny
  {
  }

  /** A values-only field read against the shared slots. */
  ghost function Paired(slots: seq<Slot>, f: FieldValues): Option<SelectedField> {
    if f.gridIndex < |slots|
    then Some(SelectedField(f.selector, slots[f.gridIndex].entry.grid, f.values, slots[f.gridIndex].projection))
    else None
  }

  class Memo {
    const codec: Codec
    var index: map<GridMemoKey, nat>
    var slots: seq<Slot>
    ghost var definitions: seq<GridDefinition>

    /** Slot i belongs to definitions[i]; keys and slots correspond one to one. */
    ghost predicate Valid()
      reads this
    {
      && |definitions| == |slots|
      && (forall i :: 0 <= i < |slots| ==> SlotFor(codec, definitions[i]) == Some(slots[i]))
      && (forall i :: 0 <= i < |slots| ==> KeyOf(definitions[i]) in index && index[KeyOf(definitions[i])] == i)
      && (forall key :: key in index ==> index[key] < |slots| && KeyOf(definitions[index[key]]) == key)
    }

    lemma DefinitionsDistinct()
      requires Valid()
      ensures forall i, j :: 0 <= i < j < |definitions| ==> definitions[i] != definitions[j]
    {
      forall i, j | 0 <= i < j < |definitions| ensures definitions[i] != definitions[j] {
        assert index[KeyOf(definitions[i])] == i && index[KeyOf(definitions[j])] == j;
      }
    }

    constructor (codec: Codec)
      ensures Valid() && slots == [] && definitions == [] && this.codec == codec
    {
      this.codec := codec;
      index, slots, definitions := map[], [], [];
    }

    /** The slot of a message's grid, built on first use; a grid that cannot be built
        leaves the memo as it was. */
    method SlotIndex(m: Message) returns (at: Option<nat>)
      requires Valid()
      modifies this
      ensures Valid() && old(definitions) <= definitions
      ensures at.None? <==> codec.build(m.grid).None?
      ensures at.None? ==> definitions == old(definitions)
      ensures at.Some? ==> at.value < |slots| && definitions[at.value] == m.grid
      ensures at.Some? ==> definitions == old(definitions) || definitions == old(definitions) + [m.grid]
    {
      var key := KeyOf(m.grid);
      if key in index {
        KeyInjective(definitions[index[key]], m.grid);
        return Some(index[key]);
      }
      var entry := codec.build(m.grid);
      if entry.None? {
        return None;
      }
      slots := slots + [Slot(entry.value, codec.projection(m.grid))];
      index := index[key := |slots| - 1];
      definitions := definitions + [m.grid];
      return Some(|slots| - 1);
    }

    /** The values-only lane. */
    method BuildFieldValues(selector: nat, m: Message) returns (f: Option<FieldValues>)
      requires Valid()
      modifies this
      ensures Valid() && old(definitions) <= definitions
      ensures f.None? <==> FromScratch(codec, selector, m).None?
      ensures f.Some? ==> f.value.gridIndex < |slots| && definitions[f.value.gridIndex] == m.grid
      ensures f.Some? ==> Paired(slots, f.value) == FromScratch(codec, selector, m)
      ensures f.Some? ==> definitions == old(definitions) || definitions == old(definitions) + [m.grid]
    {
      var at := SlotIndex(m);
      if at.None? {
        return None;
      }
      assert SlotFor(codec, definitions[at.value]) == Some(slots[at.value]);
      var values := ValuesOn(codec, m, slots[at.value]);
      if values.None? {
        return None;
      }
      return Some(FieldValues(selector, values.value, at.value));
    }

    /** The lane that carries its own copy of the grid. */
    method BuildSelectedField(selector: nat, m: Message) returns (f: Option<SelectedField>)
      requires Valid()
      modifies this
      ensures Valid() && old(definitions) <= definitions
      ensures f == FromScratch(codec, selector, m)
    {
      var values := BuildFieldValues(selector, m);
      if values.None? {
        return None;
      }
      var slot := slots[values.value.gridIndex];
      return Some(SelectedField(selector, slot.entry.grid, values.value.values, slot.projection));
    }
  }

  // ---- whole extractions ----

  /** A selector and the message matched to it. */
  datatype Request = Request(selector: nat, message: Message)

  ghost function Built(codec: Codec, r: Request): Option<SelectedField> { FromScratch(codec, r.selector, r.message) }

  /** The matched selectors and the missing ones, in order. */
  ghost function Found(matched: seq<Option<Message>>): seq<Request> {
    if matched == [] then []
    else
      var n := |matched| - 1;
      Found(matched[..n]) + if matched[n].Some? then [Request(n, matched[n].value)] else []
  }

  lemma FoundNone()
    ensures Found([]) == [] && Missing([]) == []
  {
  }

  lemma FoundStep(matched: seq<Option<Message>>, i: nat)
    requires i < |matched|
    ensures Found(matched[..i + 1]) == Found(matched[..i]) + if matched[i].Some? then [Request(i, matched[i].value)] else []
    ensures matched[i].None? ==> Found(matched[..i + 1]) == Found(matched[..i])
    ensures Missing(matched[..i + 1]) == Missing(matched[..i]) + if matched[i].Some? then [] else [i]
    ensures matched[i].Some? ==> Missing(matched[..i + 1]) == Missing(matched[..i])
  {
    assert matched[..i + 1][..i] == matched[..i];
  }

  ghost function Missing(matched: seq<Option<Message>>): seq<nat> {
    if matched == [] then []
    else
      var n := |matched| - 1;
      Missing(matched[..n]) + if matched[n].Some? then [] else [n]
  }

  /** fields are those of the requests on shared slots: one slot per distinct grid
      definition, every slot in use, every field as if built from scratch. */
  ghost predicate SharedExtraction(codec: Codec, requests: seq<Request>, fields: seq<FieldValues>, slots: seq<Slot>) {
    && |fields| == |requests|
    && (forall i :: 0 <= i < |fields| ==> Paired(slots, fields[i]).Some? && Paired(slots, fields[i]) == Built(codec, requests[i]))
    && (forall i, j :: 0 <= i < |fields| && 0 <= j < |fields| ==>
          (fields[i].gridIndex == fields[j].gridIndex <==> requests[i].message.grid == requests[j].message.grid))
    && forall s :: 0 <= s < |slots| ==> InUse(fields, s)
  }

  ghost predicate InUse(fields: seq<FieldValues>, s: int) {
    exists i :: 0 <= i < |fields| && fields[i].gridIndex == s
  }

  /** What the memo and the fields built so far have in common. */
  ghost predicate Sharing(codec: Codec, requests: seq<Request>, fields: seq<FieldValues>,
                          definitions: seq<GridDefinition>, slots: seq<Slot>)
  {
    && |fields| == |requests| && |definitions| == |slots|
    && (forall i :: 0 <= i < |slots| ==> SlotFor(codec, definitions[i]) == Some(slots[i]))
    && (forall i, j :: 0 <= i < j < |definitions| ==> definitions[i] != definitions[j])
    && (forall k :: 0 <= k < |fields| ==> OnOwnSlot(definitions, fields[k], requests[k]))
    && (forall k :: 0 <= k < |fields| ==> Paired(slots, fields[k]) == Built(codec, requests[k]))
    && forall s :: 0 <= s < |slots| ==> InUse(fields, s)
  }

  ghost predicate OnOwnSlot(definitions: seq<GridDefinition>, f: FieldValues, r: Request) {
    f.gridIndex < |definitions| && definitions[f.gridIndex] == r.message.grid
  }

  lemma SharingStep(codec: Codec, requests: seq<Request>, r: Request, fields: seq<FieldValues>, f: FieldValues,
                    definitions: seq<GridDefinition>, slots: seq<Slot>,
                    definitions': seq<GridDefinition>, slots': seq<Slot>)
    requires Sharing(codec, requests, fields, definitions, slots)
    requires definitions' == definitions || definitions' == definitions + [r.message.grid]
    requires |definitions'| == |slots'| && forall i :: 0 <= i < |slots'| ==> SlotFor(codec, definitions'[i]) == Some(slots'[i])
    requires forall i, j :: 0 <= i < j < |definitions'| ==> definitions'[i] != definitions'[j]
    requires OnOwnSlot(definitions', f, r) && Paired(slots', f) == Built(codec, r)
    ensures Sharing(codec, requests + [r], fields + [f], definitions', slots')
  {
    hide SlotFor, Built;
    var all := fields + [f];
    assert all[|fields|] == f;
    forall i | 0 <= i < |slots| ensures slots'[i] == slots[i] {
      assert definitions'[i] == definitions[i];
      assert SlotFor(codec, definitions'[i]) == Some(slots'[i]) && SlotFor(codec, definitions[i]) == Some(slots[i]);
    }
    forall s | 0 <= s < |slots'| ensures InUse(all, s) {
      if s < |slots| {
        assert InUse(fields, s);
        var k :| 0 <= k < |fields| && fields[k].gridIndex == s;
        assert all[k].gridIndex == s;
      } else {
        assert definitions'[s] == r.message.grid;
        assert f.gridIndex == s;
      }
    }
  }

  lemma SharingShared(codec: Codec, requests: seq<Request>, fields: seq<FieldValues>,
                      definitions: seq<GridDefinition>, slots: seq<Slot>)
    requires Sharing(codec, requests, fields, definitions, slots)
    ensures SharedExtraction(codec, requests, fields, slots)
  {
    hide SlotFor, Built;
    forall i, j | 0 <= i < |fields| && 0 <= j < |fields|
      ensures fields[i].gridIndex == fields[j].gridIndex <==> requests[i].message.grid == requests[j].message.grid
    {
      assert OnOwnSlot(definitions, fields[i], requests[i]) && OnOwnSlot(definitions, fields[j], requests[j]);
    }
  }

  /** Every message that is there can be built. */
  ghost predicate AllBuild(codec: Codec, matched: seq<Option<Message>>) {
    forall i :: 0 <= i < |matched| && matched[i].Some? ==> FromScratch(codec, i, matched[i].value).Some?
  }

  /** The values lane over all selectors: matched ones through one memo, stopping at the
      first failure; the others are listed as missing. */
  method ExtractValues(codec: Codec, matched: seq<Option<Message>>)
    returns (fields: Option<seq<FieldValues>>, missing: seq<nat>, slots: seq<Slot>)
    ensures fields.Some? <==> AllBuild(codec, matched)
    ensures fields.Some? ==> SharedExtraction(codec, Found(matched), fields.value, slots) && missing == Missing(matched)
  {
    hide FromScratch, SlotFor, Sharing, SharedExtraction, KeyOf, Found, Missing, Paired;
    var memo := new Memo(codec);
    var out: seq<FieldValues> := [];
    missing := [];
    SharingNothing(codec);
    assert matched[..0] == [] && Found([]) == [] && Missing([]) == [] by { FoundNone(); }
    for i := 0 to |matched|
      invariant memo.Valid() && memo.codec == codec && AllBuild(codec, matched[..i])
      invariant Sharing(codec, Found(matched[..i]), out, memo.definitions, memo.slots) && missing == Missing(matched[..i])
    {
      FoundStep(matched, i);
      if matched[i].None? {
        missing := missing + [i];
      } else {
        ghost var before, known := memo.slots, memo.definitions;
        var f := memo.BuildFieldValues(i, matched[i].value);
        if f.None? {
          assert !AllBuild(codec, matched);
          return None, missing, memo.slots;
        }
        memo.DefinitionsDistinct();
        ghost var r := Request(i, matched[i].value);
        SharingStep(codec, Found(matched[..i]), r, out, f.value, known, before, memo.definitions, memo.slots);
        out := out + [f.value];
      }
    }
    assert matched[..|matched|] == matched;
    SharingShared(codec, Found(matched), out, memo.definitions, memo.slots);
    return Some(out), missing, memo.slots;
  }

  /** The strict lane: every selector must have a message, and each field is the one
      built from scratch. */
  method ExtractFields(codec: Codec, matched: seq<Option<Message>>) returns (out: Option<seq<SelectedField>>)
    ensures out.Some? <==> AllBuild(codec, matched) && forall i :: 0 <= i < |matched| ==> matched[i].Some?
    ensures out.Some? ==> |out.value| == |matched| && forall i :: 0 <= i < |matched| ==>
              Some(out.value[i]) == FromScratch(codec, i, matched[i].value)
  {
    hide FromScratch, SlotFor, KeyOf;
    var memo := new Memo(codec);
    var fields: seq<SelectedField> := [];
    for i := 0 to |matched|
      invariant memo.Valid() && memo.codec == codec && |fields| == i
      invariant forall k :: 0 <= k < i ==> matched[k].Some? && Some(fields[k]) == FromScratch(codec, k, matched[k].value)
    {
      if matched[i].None? {
        return None;
      }
      var f := memo.BuildSelectedField(i, matched[i].value);
      if f.None? {
        assert !AllBuild(codec, matched);
        return None;
      }
      fields := fields + [f.value];
    }
    return Some(fields);
  }

  lemma SharingNothing(codec: Codec)
    ensures Sharing(codec, [], [], [], [])
  {
  }
}
