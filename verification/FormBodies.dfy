/** Form fields that share a name, grouped in the two places that turn a form into a plain object. */
module FormBodies {
  import opened Wrappers

  /** A form value, or what a plain object has under a name that `Object.prototype` defines. */
  datatype Value = Text(text: string) | File(contents: seq<nat>) | Inherited(name: string)

  datatype Entry = Entry(key: string, value: Value)

  datatype Slot = One(value: Value) | Many(values: seq<Value>) {
    function Values(): seq<Value> {
      match this
      case One(value) => [value]
      case Many(values) => values
    }
  }

  type Body = map<string, Slot>

  /** SDKs send arrays under `key[]`. */
  function Normalized(key: string): string {
    if EndsInBrackets(key) then key[..|key| - 2] else key
  }

  predicate EndsInBrackets(key: string) {
    |key| >= 2 && key[|key| - 2..] == "[]"
  }

  /** Reading a name of a plain object: its own entry, else what it inherits, else undefined. */
  function Read(body: Body, inherited: set<string>, key: string): Option<Slot> {
    if key in body then Some(body[key])
    else if key in inherited then Some(One(Inherited(key)))
    else None
  }

  // ----- what the grouping means -----

  function NormalizedAll(entries: seq<Entry>): seq<Entry> {
    seq(|entries|, i requires 0 <= i < |entries| => Entry(Normalized(entries[i].key), entries[i].value))
  }

  /** The values of the entries whose key is `key`, in order. */
  function ValuesFor(entries: seq<Entry>, key: string): seq<Value> {
    if entries == [] then []
    else
      var last := entries[|entries| - 1];
      ValuesFor(entries[..|entries| - 1], key) + if last.key == key then [last.value] else []
  }

  /** One value stands alone; several, or one that joins an inherited name, make a list. */
  function Grouped(inherited: set<string>, key: string, values: seq<Value>): Slot
    requires values != []
  {
    if key in inherited then Many([Inherited(key)] + values)
    else if |values| == 1 then One(values[0])
    else Many(values)
  }

  /** `body` has exactly the keys of the entries, each with the ordered group of its values. */
  ghost predicate Groups(body: Body, entries: seq<Entry>, inherited: set<string>) {
    && (forall key :: key in body <==> ValuesFor(entries, key) != [])
    && (forall key :: key in body ==> body[key] == Grouped(inherited, key, ValuesFor(entries, key)))
  }

  lemma ValuesForStep(entries: seq<Entry>, i: nat, key: string)
    requires i < |entries|
    ensures ValuesFor(entries[..i + 1], key) ==
            if entries[i].key == key then ValuesFor(entries[..i], key) + [entries[i].value]
            else ValuesFor(entries[..i], key)
  {
    assert entries[..i + 1][..i] == entries[..i];
  }

  /** One more entry changes the group of its own key and no other. */
  lemma GroupsStep(before: Body, after: Body, entries: seq<Entry>, i: nat, inherited: set<string>)
    requires i < |entries| && Groups(before, entries[..i], inherited)
    requires var Entry(key, value) := entries[i];
             after == before[key := Grouped(inherited, key, ValuesFor(entries[..i], key) + [value])]
    ensures Groups(after, entries[..i + 1], inherited)
  {
    forall key
      ensures key in after <==> ValuesFor(entries[..i + 1], key) != []
      ensures key in after ==> after[key] == Grouped(inherited, key, ValuesFor(entries[..i + 1], key))
    {
      ValuesForStep(entries, i, key);
    }
  }

  /** What joins a value to what is read under its name. */
  function Joined(slot: Option<Slot>, value: Value): Slot {
    match slot
    case None => One(value)
    case Some(Many(values)) => Many(values + [value])
    case Some(One(first)) => Many([first, value])
  }

  lemma GroupedGrows(inherited: set<string>, key: string, values: seq<Value>, value: Value)
    ensures var slot := if values != [] then Some(Grouped(inherited, key, values))
                        else if key in inherited then Some(One(Inherited(key)))
                        else None;
            Joined(slot, value) == Grouped(inherited, key, values + [value])
  {
    assert [Inherited(key)] + values + [value] == [Inherited(key)] + (values + [value]);
    assert |values| == 1 ==> values + [value] == [values[0], value];
    assert values == [] ==> values + [value] == [value];
  }

  method MultipartBody(entries: seq<Entry>, inherited: set<string>) returns (data: Body)
    ensures Groups(data, NormalizedAll(entries), inherited)
  {
    data := map[];
    ghost var sent := NormalizedAll(entries);
    for i := 0 to |entries|
      invariant Groups(data, sent[..i], inherited)
    {
      var Entry(key, value) := entries[i];
      var normalizedKey := Normalized(key);
      ghost var before := data;
      GroupedGrows(inherited, normalizedKey, ValuesFor(sent[..i], normalizedKey), value);
      match Read(data, inherited, normalizedKey) {
        case None =>
          data := data[normalizedKey := One(value)];
        case Some(Many(values)) =>
          data := data[normalizedKey := Many(values + [value])];
        case Some(One(first)) =>
          data := data[normalizedKey := Many([first, value])];
      }
      assert data == before[normalizedKey := Joined(Read(before, inherited, normalizedKey), value)];
      GroupsStep(before, data, sent, i, inherited);
    }
    assert sent[..|entries|] == sent;
  }

  method ZodFormDataGroups(entries: seq<Entry>) returns (formData: Body)
    ensures Groups(formData, entries, {})
  {
    formData := map[];
    for i := 0 to |entries|
      invariant forall key :: key in formData <==> ValuesFor(entries[..i], key) != []
      invariant forall key :: key in formData ==>
                  ValuesFor(entries, key) != [] && formData[key] == Grouped({}, key, ValuesFor(entries, key))
    {
      var key := entries[i].key;
      var values := ValuesFor(entries, key);
      KeysHaveValues(entries, key);
      forall k
        ensures ValuesFor(entries[..i + 1], k) != [] <==> ValuesFor(entries[..i], k) != [] || k == key
      {
        ValuesForStep(entries, i, k);
      }
      formData := formData[key := if |values| > 1 then Many(values) else One(values[0])];
    }
    assert entries[..|entries|] == entries;
  }

  ghost predicate HasKey(entries: seq<Entry>, key: string) {
    exists i :: 0 <= i < |entries| && entries[i].key == key
  }

  lemma {:induction false} KeysHaveValues(entries: seq<Entry>, key: string)
    ensures ValuesFor(entries, key) != [] <==> HasKey(entries, key)
  {
    if entries != [] {
      var init, last := entries[..|entries| - 1], entries[|entries| - 1];
      KeysHaveValues(init, key);
      if HasKey(init, key) {
        var i :| 0 <= i < |init| && init[i].key == key;
        assert entries[i].key == key;
      }
      if HasKey(entries, key) && last.key != key {
        var i :| 0 <= i < |entries| && entries[i].key == key;
        assert init[i].key == key;
      }
    }
  }

  // ----- the groups in plain terms -----

  /** SDKs' brackets go, once, and nothing else. */
  lemma NormalizedExactly(key: string)
    ensures Normalized(key + "[]") == key
    ensures Normalized(key) == key <==> !exists k: string :: key == k + "[]"
  {
    assert (key + "[]")[|key|..] == "[]" && (key + "[]")[..|key|] == key;
    if EndsInBrackets(key) {
      var k := key[..|key| - 2];
      assert key == k + key[|key| - 2..];
    }
    if k: string :| key == k + "[]" {
      assert key[|key| - 2..] == "[]";
    }
  }

  /** The positions of the entries with this key, in order. */
  ghost predicate ArePositions(entries: seq<Entry>, key: string, at: seq<nat>) {
    && (forall k :: 0 <= k < |at| ==> at[k] < |entries| && entries[at[k]].key == key)
    && (forall k, l :: 0 <= k < l < |at| ==> at[k] < at[l])
    && (forall i :: 0 <= i < |entries| && entries[i].key == key ==> i in at)
  }

  ghost predicate AreValuesAt(entries: seq<Entry>, at: seq<nat>, values: seq<Value>) {
    |values| == |at| && forall k :: 0 <= k < |at| ==> at[k] < |entries| && values[k] == entries[at[k]].value
  }

  lemma PositionsBefore(entries: seq<Entry>, key: string, at: seq<nat>)
    requires entries != [] && ArePositions(entries[..|entries| - 1], key, at)
    ensures var n := |entries| - 1;
            ArePositions(entries, key, if entries[n].key == key then at + [n] else at)
  {
    var n := |entries| - 1;
    var init, all := entries[..n], if entries[n].key == key then at + [n] else at;
    forall k | 0 <= k < |at|
      ensures at[k] < n && entries[at[k]].key == key
    {
      assert init[at[k]] == entries[at[k]];
    }
    forall i | 0 <= i < |entries| && entries[i].key == key
      ensures i in all
    {
      if i < n {
        assert init[i].key == key && i in at;
        var k :| 0 <= k < |at| && at[k] == i;
        assert all[k] == i;
      } else {
        assert all[|at|] == n;
      }
    }
  }

  lemma ValuesBefore(entries: seq<Entry>, at: seq<nat>, values: seq<Value>)
    requires entries != [] && AreValuesAt(entries[..|entries| - 1], at, values)
    ensures var n := |entries| - 1;
            AreValuesAt(entries, at, values) && AreValuesAt(entries, at + [n], values + [entries[n].value])
  {
    var n := |entries| - 1;
    forall k | 0 <= k < |at|
      ensures at[k] < n && values[k] == entries[at[k]].value
    {
      assert entries[..n][at[k]] == entries[at[k]];
    }
  }

  lemma {:induction false} ValuesAtPositions(entries: seq<Entry>, key: string) returns (at: seq<nat>)
    ensures ArePositions(entries, key, at) && AreValuesAt(entries, at, ValuesFor(entries, key))
  {
    at := [];
    if entries != [] {
      var n := |entries| - 1;
      var before := ValuesAtPositions(entries[..n], key);
      PositionsBefore(entries, key, before);
      ValuesBefore(entries, before, ValuesFor(entries[..n], key));
      at := if entries[n].key == key then before + [n] else before;
    }
  }

  /**
   * What stands under a key that plain objects do not inherit: nothing when no entry has it, the value when one
   * has, and the values in order when several have.
   */
  ghost predicate StandsUnder(body: Body, entries: seq<Entry>, key: string, at: seq<nat>) {
    && ArePositions(entries, key, at)
    && if |at| == 0 then key !in body
       else if |at| == 1 then key in body && body[key] == One(entries[at[0]].value)
       else key in body && body[key].Many? && AreValuesAt(entries, at, body[key].values)
  }

  lemma GroupsExactly(body: Body, entries: seq<Entry>, inherited: set<string>, key: string) returns (at: seq<nat>)
    requires Groups(body, entries, inherited) && key !in inherited
    ensures StandsUnder(body, entries, key, at)
  {
    at := ValuesAtPositions(entries, key);
  }

  /** Under a name that plain objects inherit, the values that were sent follow the inherited one. */
  lemma InheritedGroupsExactly(body: Body, entries: seq<Entry>, inherited: set<string>, key: string)
    returns (at: seq<nat>)
    requires Groups(body, entries, inherited) && key in inherited
    ensures ArePositions(entries, key, at)
    ensures key in body <==> |at| > 0
    ensures key in body ==> body[key].Many? && |body[key].values| > 0 && body[key].values[0] == Inherited(key) &&
                            AreValuesAt(entries, at, body[key].values[1..])
  {
    at := ValuesAtPositions(entries, key);
    if key in body {
      assert body[key].values[1..] == ValuesFor(entries, key);
    }
  }

  // ----- no value is lost -----

  ghost function Total(body: Body, keys: set<string>): nat
    requires keys <= body.Keys
  {
    if keys == {} then 0
    else
      var key :| key in keys;
      |body[key].Values()| + Total(body, keys - {key})
  }

  lemma {:induction false} TotalWithout(body: Body, keys: set<string>, key: string)
    requires keys <= body.Keys && key in keys
    ensures Total(body, keys) == |body[key].Values()| + Total(body, keys - {key})
    decreases keys
  {
    var first :| first in keys && Total(body, keys) == |body[first].Values()| + Total(body, keys - {first});
    if first != key {
      TotalWithout(body, keys - {first}, key);
      TotalWithout(body, keys - {key}, first);
      assert keys - {first} - {key} == keys - {key} - {first};
    }
  }

  lemma {:induction false} SameTotal(a: Body, b: Body, keys: set<string>)
    requires keys <= a.Keys && keys <= b.Keys
    requires forall key :: key in keys ==> a[key] == b[key]
    ensures Total(a, keys) == Total(b, keys)
    decreases keys
  {
    if key :| key in keys {
      TotalWithout(a, keys, key);
      TotalWithout(b, keys, key);
      SameTotal(a, b, keys - {key});
    }
  }

  lemma GroupedSize(inherited: set<string>, key: string, values: seq<Value>)
    requires values != []
    ensures |Grouped(inherited, key, values).Values()| == |values| + if key in inherited then 1 else 0
  {
  }

  /** What the last entry adds to the values of a key. */
  lemma ValuesForLast(entries: seq<Entry>, key: string)
    requires entries != []
    ensures var n := |entries| - 1;
            ValuesFor(entries, key) ==
            if entries[n].key == key then ValuesFor(entries[..n], key) + [entries[n].value]
            else ValuesFor(entries[..n], key)
  {
    ValuesForStep(entries, |entries| - 1, key);
    assert entries[..|entries|] == entries;
  }

  lemma GroupedBefore(body: Body, before: Body, entries: seq<Entry>, inherited: set<string>)
    requires entries != [] && Groups(body, entries, inherited)
    requires Groups(before, entries[..|entries| - 1], inherited)
    ensures body.Keys == before.Keys + {entries[|entries| - 1].key}
    ensures forall key :: key in before && key != entries[|entries| - 1].key ==> body[key] == before[key]
  {
    forall key
      ensures key in body <==> key in before || key == entries[|entries| - 1].key
      ensures key in before && key != entries[|entries| - 1].key ==> body[key] == before[key]
    {
      ValuesForLast(entries, key);
    }
  }

  /** The grouping of all entries but the last. */
  lemma GroupsOfInit(body: Body, entries: seq<Entry>, inherited: set<string>) returns (before: Body)
    requires entries != [] && Groups(body, entries, inherited)
    ensures Groups(before, entries[..|entries| - 1], inherited)
    ensures body.Keys == before.Keys + {entries[|entries| - 1].key}
    ensures forall key :: key in before && key != entries[|entries| - 1].key ==> body[key] == before[key]
  {
    var init := entries[..|entries| - 1];
    before := map key | key in body && ValuesFor(init, key) != [] :: Grouped(inherited, key, ValuesFor(init, key));
    forall key
      ensures key in before <==> ValuesFor(init, key) != []
    {
      ValuesForLast(entries, key);
    }
    GroupedBefore(body, before, entries, inherited);
  }

  /** The group of the last entry's key has one value more than before. */
  lemma LastGroupSize(body: Body, before: Body, entries: seq<Entry>, inherited: set<string>)
    requires entries != [] && Groups(body, entries, inherited)
    requires Groups(before, entries[..|entries| - 1], inherited)
    ensures var key := entries[|entries| - 1].key;
            && key in body
            && |body[key].Values()| == if key in before then |before[key].Values()| + 1
                                       else if key in inherited then 2 else 1
  {
    var n := |entries| - 1;
    var init, key := entries[..n], entries[n].key;
    ValuesForLast(entries, key);
    GroupedSize(inherited, key, ValuesFor(entries, key));
    if key in before {
      GroupedSize(inherited, key, ValuesFor(init, key));
    }
  }

  /** How many names are both keys and inherited, when one key is added. */
  lemma InheritedKeys(before: set<string>, key: string, inherited: set<string>)
    ensures |(before + {key}) * inherited| ==
            |before * inherited| + if key in inherited && key !in before then 1 else 0
  {
    if key in inherited && key !in before {
      assert (before + {key}) * inherited == before * inherited + {key};
    } else {
      assert (before + {key}) * inherited == before * inherited;
    }
  }

  /** Two bodies that agree but for one key differ in size by what that key holds. */
  lemma TotalGrows(body: Body, before: Body, key: string)
    requires body.Keys == before.Keys + {key}
    requires forall other :: other in before && other != key ==> body[other] == before[other]
    ensures Total(body, body.Keys) ==
            Total(before, before.Keys) + |body[key].Values()| - if key in before then |before[key].Values()| else 0
  {
    TotalWithout(body, body.Keys, key);
    SameTotal(body, before, body.Keys - {key});
    if key in before {
      TotalWithout(before, before.Keys, key);
      assert body.Keys - {key} == before.Keys - {key};
    } else {
      assert body.Keys - {key} == before.Keys;
    }
  }

  /**
   * The groups hold one value for each entry, and besides these only the inherited value of each inherited name
   * that was sent.
   */
  lemma {:induction false} ValuesConserved(body: Body, entries: seq<Entry>, inherited: set<string>)
    requires Groups(body, entries, inherited)
    ensures Total(body, body.Keys) == |entries| + |body.Keys * inherited|
    decreases |entries|
  {
    if entries == [] {
      assert body.Keys == {};
    } else {
      var key := entries[|entries| - 1].key;
      var before := GroupsOfInit(body, entries, inherited);
      ValuesConserved(before, entries[..|entries| - 1], inherited);
      LastGroupSize(body, before, entries, inherited);
      InheritedKeys(before.Keys, key, inherited);
      TotalGrows(body, before, key);
    }
  }

  // ----- the two groupings compared -----

  /** Some entry has the longest of the keys that end in brackets. */
  lemma {:induction false} LongestBracketKey(entries: seq<Entry>) returns (longest: nat)
    requires exists i :: 0 <= i < |entries| && EndsInBrackets(entries[i].key)
    ensures longest < |entries| && EndsInBrackets(entries[longest].key)
    ensures forall i :: 0 <= i < |entries| && EndsInBrackets(entries[i].key) ==>
              |entries[i].key| <= |entries[longest].key|
  {
    var n := |entries| - 1;
    var init := entries[..n];
    if i :| 0 <= i < n && EndsInBrackets(entries[i].key) {
      assert EndsInBrackets(init[i].key);
      longest := LongestBracketKey(init);
      if EndsInBrackets(entries[n].key) && |entries[n].key| > |entries[longest].key| {
        longest := n;
      }
      assert forall i :: 0 <= i < n ==> init[i] == entries[i];
    } else {
      longest := n;
    }
  }

  /** The longest key in brackets is a key of the one grouping and not of the other. */
  lemma BracketsDisagree(entries: seq<Entry>, inherited: set<string>, data: Body, formData: Body)
    requires Groups(data, NormalizedAll(entries), inherited) && Groups(formData, entries, {})
    requires exists i :: 0 <= i < |entries| && EndsInBrackets(entries[i].key)
    ensures data != formData
  {
    var longest := LongestBracketKey(entries);
    var key := entries[longest].key;
    KeysHaveValues(entries, key);
    KeysHaveValues(NormalizedAll(entries), key);
    forall i | 0 <= i < |entries|
      ensures Normalized(entries[i].key) != key
    {
      if EndsInBrackets(entries[i].key) {
        assert |Normalized(entries[i].key)| < |key|;
      }
    }
    assert key in formData && key !in data;
  }

  lemma {:induction false} SentValuesOnly(entries: seq<Entry>, key: string)
    requires forall i :: 0 <= i < |entries| ==> !entries[i].value.Inherited?
    ensures forall k :: 0 <= k < |ValuesFor(entries, key)| ==> !ValuesFor(entries, key)[k].Inherited?
  {
    if entries != [] {
      SentValuesOnly(entries[..|entries| - 1], key);
    }
  }

  lemma InheritedDisagree(entries: seq<Entry>, inherited: set<string>, data: Body, formData: Body, i: nat)
    requires Groups(data, entries, inherited) && Groups(formData, entries, {})
    requires forall i :: 0 <= i < |entries| ==> !entries[i].value.Inherited?
    requires i < |entries| && entries[i].key in inherited
    ensures data != formData
  {
    var key := entries[i].key;
    KeysHaveValues(entries, key);
    SentValuesOnly(entries, key);
    assert data[key].Values()[0] == Inherited(key);
    assert formData[key].Values()[0] == ValuesFor(entries, key)[0];
  }

  lemma AgreeOtherwise(entries: seq<Entry>, inherited: set<string>, data: Body, formData: Body)
    requires Groups(data, entries, inherited) && Groups(formData, entries, {})
    requires forall i :: 0 <= i < |entries| ==> entries[i].key !in inherited
    ensures data == formData
  {
    forall key
      ensures key in data <==> key in formData
      ensures key in data ==> data[key] == formData[key]
    {
      KeysHaveValues(entries, key);
    }
  }

  /**
   * The two groupings of a form agree exactly when no key ends in brackets and none is a name that plain objects
   * inherit.
   */
  lemma GroupingsAgree(entries: seq<Entry>, inherited: set<string>, data: Body, formData: Body)
    requires Groups(data, NormalizedAll(entries), inherited) && Groups(formData, entries, {})
    requires forall i :: 0 <= i < |entries| ==> !entries[i].value.Inherited?
    ensures data == formData <==>
            forall i :: 0 <= i < |entries| ==> !EndsInBrackets(entries[i].key) && entries[i].key !in inherited
  {
    if exists i :: 0 <= i < |entries| && EndsInBrackets(entries[i].key) {
      BracketsDisagree(entries, inherited, data, formData);
    } else {
      assert NormalizedAll(entries) == entries;
      if i :| 0 <= i < |entries| && entries[i].key in inherited {
        InheritedDisagree(entries, inherited, data, formData, i);
      } else {
        AgreeOtherwise(entries, inherited, data, formData);
      }
    }
  }
}
