/** `VariablesLayer`: the constants and the overriding variables of a context, and overriding them for a while. */
module Layers {

  datatype Option<T> = None | Some(value: T)

  /** A dynamic variable; it evaluates to a value, or leaves it undefined. */
  datatype Variable = Variable(id: nat, frozen: bool, result: Option<int>)

  /** What a map may hold for a key. */
  datatype Value = Null | Plain(value: int) | Dynamic(variable: Variable)

  datatype Key = Named(name: string) | Text(text: string) | Foreign

  datatype Entry = Entry(key: Key, value: Value)

  /** The string a key stands for: the name of something named, or the string itself. */
  function Resolved(key: Key): string
    requires !key.Foreign?
  {
    if key.Named? then key.name else key.text
  }

  /** The two maps of a layer. */
  datatype Maps = Maps(constants: map<string, int>, variables: map<string, Variable>)

  /** What the layer holds for a key. */
  function ConstantAt(m: Maps, k: string): Value {
    if k in m.constants then Plain(m.constants[k]) else Null
  }

  function VariableAt(m: Maps, k: string): Value {
    if k in m.variables then Dynamic(m.variables[k]) else Null
  }

  // ----- putting a map

  function Put(m: Maps, k: string, v: Value): Maps {
    match v
    case Null => m.(constants := m.constants - {k})
    case Plain(c) => m.(constants := m.constants[k := c])
    case Dynamic(x) => m.(variables := m.variables[k := x])
  }

  /** The value that putting `v` replaces. */
  function Replaced(m: Maps, k: string, v: Value): Value {
    if v.Dynamic? then VariableAt(m, k) else ConstantAt(m, k)
  }

  function PutAll(m: Maps, es: seq<Entry>): Maps
    requires forall i :: 0 <= i < |es| ==> !es[i].key.Foreign?
    decreases |es|
  {
    if es == [] then m else PutAll(Put(m, Resolved(es[0].key), es[0].value), es[1..])
  }

  /** For every key, what its last entry has replaced. */
  function SavedBy(m: Maps, es: seq<Entry>): map<string, Value>
    requires forall i :: 0 <= i < |es| ==> !es[i].key.Foreign?
    decreases |es|
  {
    if es == [] then map[]
    else
      var k, v := Resolved(es[|es| - 1].key), es[|es| - 1].value;
      SavedBy(m, es[..|es| - 1])[k := Replaced(PutAll(m, es[..|es| - 1]), k, v)]
  }

  /** The entries before the first key that is neither named nor a string. */
  function Sound(es: seq<Entry>): (r: seq<Entry>)
    ensures r <= es && forall i :: 0 <= i < |r| ==> !r[i].key.Foreign?
    ensures r == es <==> forall i :: 0 <= i < |es| ==> !es[i].key.Foreign?
  {
    if es == [] || es[0].key.Foreign? then [] else [es[0]] + Sound(es[1..])
  }

  lemma {:induction false} PutAllMore(m: Maps, es: seq<Entry>, e: Entry)
    requires !e.key.Foreign? && forall i :: 0 <= i < |es| ==> !es[i].key.Foreign?
    ensures PutAll(m, es + [e]) == Put(PutAll(m, es), Resolved(e.key), e.value)
    decreases |es|
  {
    hide Put;
    if es == [] {
      assert [] + [e] == [e] && [e][1..] == [];
    } else {
      assert (es + [e])[1..] == es[1..] + [e];
      PutAllMore(Put(m, Resolved(es[0].key), es[0].value), es[1..], e);
    }
  }

  lemma {:induction false} SavedMore(m: Maps, es: seq<Entry>, e: Entry)
    requires !e.key.Foreign? && forall i :: 0 <= i < |es| ==> !es[i].key.Foreign?
    ensures SavedBy(m, es + [e]) == SavedBy(m, es)[Resolved(e.key) := Replaced(PutAll(m, es), Resolved(e.key), e.value)]
  {
    assert (es + [e])[..|es|] == es;
  }

  // ----- a layer

  class VariablesLayer {
    var constants: map<string, int>
    var variables: map<string, Variable>

    constructor ()
      ensures Contents() == Maps(map[], map[])
    {
      constants, variables := map[], map[];
    }

    function Contents(): Maps
      reads this
    {
      Maps(constants, variables)
    }

    /** `putMap`; a key of the wrong type throws with the entries before it put. */
    method PutMap(es: seq<Entry>) returns (saved: map<string, Value>, threw: bool)
      modifies this
      ensures Contents() == PutAll(old(Contents()), Sound(es)) && saved == SavedBy(old(Contents()), Sound(es))
      ensures threw <==> exists i :: 0 <= i < |es| && es[i].key.Foreign?
    {
      hide PutAll, SavedBy;
      saved, threw := map[], false;
      ghost var m0 := Contents();
      NonePut(m0);
      var i := 0;
      while i < |es|
        invariant 0 <= i <= |es| && forall k :: 0 <= k < i ==> !es[k].key.Foreign?
        invariant Contents() == PutAll(m0, es[..i]) && saved == SavedBy(m0, es[..i])
      {
        var key, value := es[i].key, es[i].value;
        if key.Foreign? {
          SoundPrefix(es, i);
          return saved, true;
        }
        assert es[..i + 1] == es[..i] + [es[i]];
        PutAllMore(m0, es[..i], es[i]);
        SavedMore(m0, es[..i], es[i]);
        var stringKey := Resolved(key);
        match value {
          case Dynamic(x) =>
            var oldValue := if stringKey in variables then Dynamic(variables[stringKey]) else Null;
            variables := variables[stringKey := x];
            saved := saved[stringKey := oldValue];
          case Null =>
            var oldValue := if stringKey in constants then Plain(constants[stringKey]) else Null;
            constants := constants - {stringKey};
            saved := saved[stringKey := oldValue];
          case Plain(c) =>
            var oldValue := if stringKey in constants then Plain(constants[stringKey]) else Null;
            constants := constants[stringKey := c];
            saved := saved[stringKey := oldValue];
        }
        i := i + 1;
      }
      assert es[..i] == es;
    }
  }

  /** The entries of a hash map, in any order. */
  method EntriesOf(saved: map<string, Value>) returns (fs: seq<Entry>)
    ensures Enumerates(fs, saved)
  {
    fs := [];
    var keys := saved.Keys;
    while keys != {}
      invariant keys <= saved.Keys && AllSound(fs)
      invariant forall i :: 0 <= i < |fs| ==> Resolved(fs[i].key) in saved && Resolved(fs[i].key) !in keys && fs[i].value == saved[Resolved(fs[i].key)]
      invariant forall i, j :: 0 <= i < j < |fs| ==> Resolved(fs[i].key) != Resolved(fs[j].key)
      invariant forall k :: k in saved && k !in keys ==> exists i :: 0 <= i < |fs| && Resolved(fs[i].key) == k
      decreases |keys|
    {
      var k :| k in keys;
      ghost var gs := fs;
      fs := fs + [Entry(Text(k), saved[k])];
      keys := keys - {k};
      assert Resolved(fs[|gs|].key) == k;
      assert forall i :: 0 <= i < |gs| ==> fs[i] == gs[i];
    }
  }

  /** `AbstractContext.withMap` around something that leaves the layer alone and ends with a result or an exception:
      the layer is as before exactly when the map was restorable. A key of the wrong type throws before anything is called,
      and then nothing is restored. */
  method WithMap(layer: VariablesLayer, es: seq<Entry>) returns (r: Option<int>, called: bool)
    modifies layer
    ensures called <==> AllSound(es)
    ensures called ==> (layer.Contents() == old(layer.Contents()) <==> Restorable(old(layer.Contents()), es))
    ensures !called ==> r == None && layer.Contents() == PutAll(old(layer.Contents()), Sound(es))
  {
    hide PutAll, SavedBy, Restorable;
    ghost var m := layer.Contents();
    var saved, threw := layer.PutMap(es);
    if threw {
      return None, false;
    }
    called := true;
    r := *;
    var fs := EntriesOf(saved);
    RestoresExactly(m, es, fs);
    var back, threwBack := layer.PutMap(fs);
  }

  lemma {:induction false} NonePut(m: Maps)
    ensures PutAll(m, []) == m && SavedBy(m, []) == map[]
  {
  }

  lemma {:induction false} SoundPrefix(es: seq<Entry>, i: nat)
    requires i < |es| && es[i].key.Foreign? && forall k :: 0 <= k < i ==> !es[k].key.Foreign?
    ensures Sound(es) == es[..i]
  {
    if i > 0 {
      SoundPrefix(es[1..], i - 1);
      assert es[..i] == [es[0]] + es[1..][..i - 1];
    }
  }

  // ----- what a layer holds for one key after a map is put

  /** Entries for another key do not matter. */
  ghost predicate SameAt(m: Maps, n: Maps, k: string) {
    ConstantAt(m, k) == ConstantAt(n, k) && VariableAt(m, k) == VariableAt(n, k)
  }

  lemma PutElsewhere(m: Maps, j: string, v: Value, k: string)
    requires j != k
    ensures SameAt(Put(m, j, v), m, k)
  {
  }

  /** Maps that hold the same for every key are equal. */
  lemma SameEverywhere(m: Maps, n: Maps)
    requires forall k :: SameAt(m, n, k)
    ensures m == n
  {
    forall k
      ensures k in m.constants <==> k in n.constants
      ensures k in m.constants ==> m.constants[k] == n.constants[k]
      ensures k in m.variables <==> k in n.variables
      ensures k in m.variables ==> m.variables[k] == n.variables[k]
    {
      assert SameAt(m, n, k);
    }
    assert m.constants == n.constants && m.variables == n.variables;
  }

  ghost predicate AllSound(es: seq<Entry>) {
    forall i :: 0 <= i < |es| ==> !es[i].key.Foreign?
  }

  predicate Concerns(e: Entry, k: string) {
    !e.key.Foreign? && Resolved(e.key) == k
  }

  lemma SameTrans(m: Maps, n: Maps, o: Maps, k: string)
    requires SameAt(m, n, k) && SameAt(n, o, k)
    ensures SameAt(m, o, k)
  {
  }

  /** Putting a value for a key on layers that agree at the key. */
  lemma PutSame(m: Maps, n: Maps, k: string, v: Value)
    requires SameAt(m, n, k)
    ensures SameAt(Put(m, k, v), Put(n, k, v), k)
  {
  }

  lemma {:induction false} NotConcerned(m: Maps, es: seq<Entry>, k: string)
    requires AllSound(es) && forall i :: 0 <= i < |es| ==> !Concerns(es[i], k)
    ensures SameAt(PutAll(m, es), m, k)
    decreases |es|
  {
    hide SameAt, Put;
    if es == [] {
      SameSelf(m, k);
    } else {
      assert !Concerns(es[0], k);
      var n := Put(m, Resolved(es[0].key), es[0].value);
      PutElsewhere(m, Resolved(es[0].key), es[0].value, k);
      NotConcerned(n, es[1..], k);
      SameTrans(PutAll(n, es[1..]), n, m, k);
    }
  }

  lemma SameSelf(m: Maps, k: string)
    ensures SameAt(m, m, k)
  {
  }

  lemma {:induction false} PutAllConcat(m: Maps, es: seq<Entry>, fs: seq<Entry>)
    requires AllSound(es) && AllSound(fs)
    ensures AllSound(es + fs) && PutAll(m, es + fs) == PutAll(PutAll(m, es), fs)
    decreases |es|
  {
    hide Put;
    if es == [] {
      assert es + fs == fs;
    } else {
      assert (es + fs)[1..] == es[1..] + fs;
      PutAllConcat(Put(m, Resolved(es[0].key), es[0].value), es[1..], fs);
    }
  }

  /** Entry `i` is the last one for its key. */
  ghost predicate LastFor(es: seq<Entry>, i: nat, k: string) {
    i < |es| && Concerns(es[i], k) && forall j :: i < j < |es| ==> !Concerns(es[j], k)
  }

  /** At a key, only the last entry for it counts. */
  lemma {:induction false} LastCounts(m: Maps, es: seq<Entry>, i: nat, k: string)
    requires AllSound(es) && LastFor(es, i, k)
    ensures SameAt(PutAll(m, es), Put(PutAll(m, es[..i]), k, es[i].value), k)
  {
    hide SameAt, Put, PutAll;
    assert es == es[..i] + ([es[i]] + es[i + 1..]);
    PutAllConcat(m, es[..i], [es[i]] + es[i + 1..]);
    PutAllConcat(PutAll(m, es[..i]), [es[i]], es[i + 1..]);
    PutAllOne(PutAll(m, es[..i]), es[i]);
    NotConcerned(Put(PutAll(m, es[..i]), k, es[i].value), es[i + 1..], k);
  }

  lemma {:induction false} PutAllOne(m: Maps, e: Entry)
    requires !e.key.Foreign?
    ensures PutAll(m, [e]) == Put(m, Resolved(e.key), e.value)
  {
    assert [e][1..] == [];
  }

  lemma {:induction false} LastSaved(m: Maps, es: seq<Entry>, i: nat, k: string)
    requires AllSound(es) && LastFor(es, i, k)
    ensures k in SavedBy(m, es) && SavedBy(m, es)[k] == Replaced(PutAll(m, es[..i]), k, es[i].value)
    decreases |es|
  {
    hide PutAll, Replaced;
    var l := |es| - 1;
    if i < l {
      assert !Concerns(es[l], k);
      assert es[..l][..i] == es[..i];
      assert forall j :: 0 <= j < l ==> es[..l][j] == es[j];
      LastSaved(m, es[..l], i, k);
    }
  }

  lemma {:induction false} SavedConcerned(m: Maps, es: seq<Entry>, k: string) returns (i: nat)
    requires AllSound(es) && (k in SavedBy(m, es) || exists j :: 0 <= j < |es| && Concerns(es[j], k))
    ensures LastFor(es, i, k)
    decreases |es|
  {
    hide PutAll, Replaced;
    var l := |es| - 1;
    if Concerns(es[l], k) {
      i := l;
    } else {
      assert forall j :: 0 <= j < l ==> es[..l][j] == es[j];
      if j :| 0 <= j < |es| && Concerns(es[j], k) {
        assert Concerns(es[..l][j], k);
      }
      i := SavedConcerned(m, es[..l], k);
    }
  }

  // ----- restoring

  /** The values saved, in whatever order a hash map yields them. */
  ghost predicate Enumerates(fs: seq<Entry>, saved: map<string, Value>) {
    && AllSound(fs)
    && (forall i :: 0 <= i < |fs| ==> Resolved(fs[i].key) in saved && fs[i].value == saved[Resolved(fs[i].key)])
    && (forall i, j :: 0 <= i < j < |fs| ==> Resolved(fs[i].key) != Resolved(fs[j].key))
    && forall k :: k in saved ==> exists i :: 0 <= i < |fs| && Resolved(fs[i].key) == k
  }

  /** Before the last entry for the key, the layer is at the key as it was; and if that entry is a variable, it overrides one. */
  ghost predicate RestorableAt(m: Maps, es: seq<Entry>, i: nat, k: string)
    requires AllSound(es) && i < |es|
  {
    SameAt(PutAll(m, es[..i]), m, k) && (es[i].value.Dynamic? ==> k in m.variables)
  }

  ghost predicate Restorable(m: Maps, es: seq<Entry>)
    requires AllSound(es)
  {
    forall i: nat, k :: LastFor(es, i, k) ==> RestorableAt(m, es, i, k)
  }

  /** Putting a value and then what it has replaced. */
  lemma PutAndBack(m: Maps, n: Maps, k: string, v: Value)
    requires k in m.variables ==> k in n.variables
    ensures SameAt(Put(Put(n, k, v), k, Replaced(n, k, v)), m, k) <==> SameAt(n, m, k) && (v.Dynamic? ==> k in m.variables)
  {
  }

  lemma {:induction false} OverridesStay(m: Maps, es: seq<Entry>, k: string)
    requires AllSound(es) && k in m.variables
    ensures k in PutAll(m, es).variables
    decreases |es|
  {
    if es != [] {
      OverridesStay(Put(m, Resolved(es[0].key), es[0].value), es[1..], k);
    }
  }

  /** The layer after putting a map and putting back what was saved. */
  lemma {:induction false} BackAt(m: Maps, es: seq<Entry>, fs: seq<Entry>, i: nat, k: string)
    requires AllSound(es) && Enumerates(fs, SavedBy(m, es)) && LastFor(es, i, k)
    ensures SameAt(PutAll(PutAll(m, es), fs), m, k) <==> RestorableAt(m, es, i, k)
  {
    hide PutAll, SavedBy;
    var n, v, o := PutAll(m, es[..i]), es[i].value, PutAll(m, es);
    LastSaved(m, es, i, k);
    var j :| 0 <= j < |fs| && Resolved(fs[j].key) == k;
    assert LastFor(fs, j, k);
    LastCounts(o, fs, j, k);
    forall l | 0 <= l < j
      ensures !Concerns(fs[..j][l], k)
    {
    }
    NotConcerned(o, fs[..j], k);
    LastCounts(m, es, i, k);
    var w := Replaced(n, k, v);
    PutSame(PutAll(o, fs[..j]), o, k, w);
    PutSame(o, Put(n, k, v), k, w);
    if k in m.variables {
      OverridesStay(m, es[..i], k);
    }
    PutAndBack(m, n, k, v);
  }

  /** Putting back what putting a map has saved restores the layer exactly when the map is restorable. */
  lemma {:induction false} RestoresExactly(m: Maps, es: seq<Entry>, fs: seq<Entry>)
    requires AllSound(es) && Enumerates(fs, SavedBy(m, es))
    ensures PutAll(PutAll(m, es), fs) == m <==> Restorable(m, es)
  {
    hide PutAll, SavedBy, SameAt, RestorableAt;
    var r := PutAll(PutAll(m, es), fs);
    if r == m {
      forall i: nat, k | LastFor(es, i, k)
        ensures RestorableAt(m, es, i, k)
      {
        SameSelf(m, k);
        BackAt(m, es, fs, i, k);
      }
    }
    if Restorable(m, es) {
      forall k
        ensures SameAt(r, m, k)
      {
        RestoredAt(m, es, fs, k);
      }
      SameEverywhere(r, m);
    }
  }

  lemma {:induction false} RestoredAt(m: Maps, es: seq<Entry>, fs: seq<Entry>, k: string)
    requires AllSound(es) && Enumerates(fs, SavedBy(m, es)) && Restorable(m, es)
    ensures SameAt(PutAll(PutAll(m, es), fs), m, k)
  {
    hide PutAll, SavedBy, SameAt, RestorableAt;
    if exists j :: 0 <= j < |es| && Concerns(es[j], k) {
      var i := SavedConcerned(m, es, k);
      BackAt(m, es, fs, i, k);
    } else {
      forall j | 0 <= j < |fs|
        ensures !Concerns(fs[j], k)
      {
        if Concerns(fs[j], k) {
          var i := SavedConcerned(m, es, k);
        }
      }
      NotConcerned(m, es, k);
      NotConcerned(PutAll(m, es), fs, k);
      SameTrans(PutAll(PutAll(m, es), fs), PutAll(m, es), m, k);
    }
  }

  /** When the keys stand for different strings, a map is restorable exactly when each variable in it replaces an override. */
  lemma DistinctRestorable(m: Maps, es: seq<Entry>)
    requires AllSound(es) && forall i, j :: 0 <= i < j < |es| ==> Resolved(es[i].key) != Resolved(es[j].key)
    ensures Restorable(m, es) <==> forall i :: 0 <= i < |es| && es[i].value.Dynamic? ==> Resolved(es[i].key) in m.variables
  {
    hide PutAll, SameAt;
    forall i: nat, k | LastFor(es, i, k)
      ensures SameAt(PutAll(m, es[..i]), m, k)
    {
      forall j | 0 <= j < i
        ensures !Concerns(es[..i][j], k)
      {
      }
      NotConcerned(m, es[..i], k);
    }
    if Restorable(m, es) {
      forall i | 0 <= i < |es| && es[i].value.Dynamic?
        ensures Resolved(es[i].key) in m.variables
      {
        assert LastFor(es, i, Resolved(es[i].key));
        assert RestorableAt(m, es, i, Resolved(es[i].key));
      }
    }
  }

  /** A variable that overrides nothing stays behind, and takes the constant of its name away. */
  lemma {:induction false} NewOverrideStays(m: Maps, k: string, x: Variable, fs: seq<Entry>)
    requires k !in m.variables && Enumerates(fs, SavedBy(m, [Entry(Text(k), Dynamic(x))]))
    ensures var r := PutAll(PutAll(m, [Entry(Text(k), Dynamic(x))]), fs); VariableAt(r, k) == Dynamic(x) && ConstantAt(r, k) == Null
  {
    var es := [Entry(Text(k), Dynamic(x))];
    hide PutAll, SavedBy;
    assert LastFor(es, 0, k) && es[..0] == [];
    LastSaved(m, es, 0, k);
    var j :| 0 <= j < |fs| && Resolved(fs[j].key) == k;
    assert LastFor(fs, j, k);
    NonePut(m);
    LastCounts(PutAll(m, es), fs, j, k);
    forall l | 0 <= l < j
      ensures !Concerns(fs[..j][l], k)
    {
    }
    NotConcerned(PutAll(m, es), fs[..j], k);
    PutAllOne(m, es[0]);
  }

  // ----- looking up

  /** Where a name is bound: in the nearest layer of the chain that binds it, and there to the constant before the variable. */
  datatype Binding = ConstantIn(layer: nat, value: int) | VariableIn(layer: nat, variable: Variable) | Unbound

  ghost predicate Binds(m: Maps, name: string) {
    name in m.constants || name in m.variables
  }

  /** The chain of layers, the nearest first. */
  function Bound(chain: seq<Maps>, name: string): Binding {
    if chain == [] then Unbound
    else if name in chain[0].constants then ConstantIn(0, chain[0].constants[name])
    else if name in chain[0].variables then VariableIn(0, chain[0].variables[name])
    else match Bound(chain[1..], name)
         case ConstantIn(l, v) => ConstantIn(l + 1, v)
         case VariableIn(l, x) => VariableIn(l + 1, x)
         case Unbound => Unbound
  }

  lemma {:induction false} BoundNearest(chain: seq<Maps>, name: string)
    ensures match Bound(chain, name)
            case Unbound => forall l :: 0 <= l < |chain| ==> !Binds(chain[l], name)
            case ConstantIn(l, v) => l < |chain| && ConstantAt(chain[l], name) == Plain(v) && forall k :: 0 <= k < l ==> !Binds(chain[k], name)
            case VariableIn(l, x) => l < |chain| && ConstantAt(chain[l], name) == Null && VariableAt(chain[l], name) == Dynamic(x)
                                     && forall k :: 0 <= k < l ==> !Binds(chain[k], name)
  {
    if chain != [] {
      BoundNearest(chain[1..], name);
      assert forall l :: 1 <= l < |chain| ==> chain[l] == chain[1..][l - 1];
    }
  }

  datatype Found = Found(value: int) | Undefined

  /** `getByVarName` for a name that is not memoized; `registered` is the variable the registry or the caller knows under it. */
  function Lookup(chain: seq<Maps>, name: string, registered: Option<Variable>, default: Option<int>): Found
    requires chain != []
  {
    if name in chain[0].constants then Found(chain[0].constants[name])
    else if name in chain[0].variables then Chosen(chain[0].variables[name].result, default)
    else if |chain| > 1 then Lookup(chain[1..], name, registered, None)
    else if registered.Some? then Chosen(registered.value.result, default)
    else Undefined
  }

  function Chosen(x: Option<int>, default: Option<int>): Found {
    if x.Some? then Found(x.value) else if default.Some? then Found(default.value) else Undefined
  }

  /** A lookup gives what the nearest binding gives: a constant, or what its variable evaluates to; a default counts only
      where that is undefined, and only in the first layer. */
  lemma {:induction false} LookupNearest(chain: seq<Maps>, name: string, registered: Option<Variable>, default: Option<int>)
    requires chain != []
    ensures Lookup(chain, name, registered, default) ==
            match Bound(chain, name)
            case ConstantIn(_, v) => Found(v)
            case VariableIn(l, Variable(_, _, Some(v))) => Found(v)
            case VariableIn(l, Variable(_, _, None)) => if l == 0 && default.Some? then Found(default.value) else Undefined
            case Unbound =>
              match registered
              case Some(Variable(_, _, Some(v))) => Found(v)
              case Some(Variable(_, _, None)) => if |chain| == 1 && default.Some? then Found(default.value) else Undefined
              case None => Undefined
    decreases |chain|
  {
    if |chain| > 1 {
      LookupNearest(chain[1..], name, registered, None);
    } else {
      assert chain[1..] == [];
    }
  }
}
