/** The map from pointers to tuples of pointers that value and type lowering use:
compilerutils/include/compilerutils/LoweringPointerTupleMap.h, with its reverse map.

Pointers are even numbers, so that the lowest bit is free to tell pointers from shifted indices.
*/
module TupleMap {
  type Pointer = p: nat | p % 2 == 0

  const NULL: Pointer := 0

  /** A live mention of a value: the key of the mapping that mentions it, and the value. */
  datatype Mention = Mention(key: Pointer, value: Pointer)

  function Tagged(index: nat): (r: nat)
    ensures r % 2 == 1 && r / 2 == index
  {
    index * 2 + 1
  }

  // ----- encoded mappings -----

  /** The encoding of a mapping is a pointer, or refers to a stored tuple: its size and then its values. */
  predicate Encodes(extra: seq<nat>, encoded: nat)
  {
    encoded % 2 == 1 ==>
      var index := encoded / 2;
      index < |extra| && 2 <= extra[index] && index + extra[index] < |extra| && AllPointers(extra[index + 1..index + 1 + extra[index]])
  }

  predicate AllPointers(values: seq<nat>)
  {
    forall i :: 0 <= i < |values| ==> values[i] % 2 == 0
  }

  function Decode(extra: seq<nat>, encoded: nat): (r: seq<Pointer>)
    requires Encodes(extra, encoded)
    ensures r != []
  {
    if encoded % 2 == 0 then [encoded]
    else
      var index := encoded / 2;
      extra[index + 1..index + 1 + extra[index]]
  }

  // ----- the reverse map -----

  predicate NoDuplicates(s: seq<nat>)
  {
    forall i, j :: 0 <= i < j < |s| ==> s[i] != s[j]
  }

  predicate Lists(reverse: map<Pointer, seq<nat>>, mention: Mention, o: nat)
  {
    mention.value in reverse && o in reverse[mention.value]
  }

  predicate AllMention(occurrences: seq<nat>, mentions: map<nat, Mention>, value: Pointer)
  {
    forall o :: o in occurrences ==> o in mentions && mentions[o].value == value
  }

  /** The reverse map lists every mention of every value once. */
  ghost predicate Reverses(reverse: map<Pointer, seq<nat>>, mentions: map<nat, Mention>)
  {
    && (forall o :: o in mentions ==> Lists(reverse, mentions[o], o))
    && (forall v :: v in reverse ==> reverse[v] != [] && NoDuplicates(reverse[v]) && AllMention(reverse[v], mentions, v))
  }

  /** The sequence without its element `i`, which the last element replaces. */
  function RemoveAt(s: seq<nat>, i: nat): (r: seq<nat>)
    requires i < |s| && NoDuplicates(s)
    ensures NoDuplicates(r) && |r| == |s| - 1
    ensures forall x :: x in r <==> x in s && x != s[i]
  {
    var r := s[i := s[|s| - 1]][..|s| - 1];
    assert forall x :: x in r ==> x in s;
    assert forall k :: 0 <= k < |s| && k != i ==> s[k] == r[if k == |s| - 1 then i else k];
    r
  }

  method Find(s: seq<nat>, x: nat) returns (i: nat)
    requires x in s
    ensures i < |s| && s[i] == x
  {
    i := 0;
    while s[i] != x
      invariant i < |s| && x in s[i..]
      decreases |s| - i
    {
      i := i + 1;
    }
  }

  /** The clearEntry lambda of clearReverseMap. */
  method ClearEntry(reverse: map<Pointer, seq<nat>>, oldValue: Pointer, occurrence: nat, ghost mentions: map<nat, Mention>)
    returns (cleared: map<Pointer, seq<nat>>)
    requires Reverses(reverse, mentions)
    requires occurrence in mentions && mentions[occurrence].value == oldValue
    ensures Reverses(cleared, mentions - {occurrence})
  {
    var occurrences := reverse[oldValue];
    if |occurrences| == 1 {
      cleared := reverse - {oldValue};
    } else {
      var i := Find(occurrences, occurrence);
      cleared := reverse[oldValue := RemoveAt(occurrences, i)];
    }
  }

  /** The first recorded mention of each value stays the first one. */
  ghost predicate KeepsFirst(reverse: map<Pointer, seq<nat>>, later: map<Pointer, seq<nat>>)
  {
    forall v :: v in reverse && reverse[v] != [] ==> v in later && later[v] != [] && later[v][0] == reverse[v][0]
  }

  /** The first recorded mention of the value is in a longer tuple. */
  predicate FirstIsTagged(reverse: map<Pointer, seq<nat>>, value: Pointer)
  {
    value in reverse && reverse[value] != [] && reverse[value][0] % 2 == 1
  }

  /** Mentions in longer tuples have been added. */
  ghost predicate Grown(reverse: map<Pointer, seq<nat>>, later: map<Pointer, seq<nat>>)
  {
    KeepsFirst(reverse, later) && forall v :: v in later && v !in reverse ==> FirstIsTagged(later, v)
  }

  lemma GrownNot(reverse: map<Pointer, seq<nat>>)
    ensures Grown(reverse, reverse)
  {
  }

  lemma GrownFurther(reverse: map<Pointer, seq<nat>>, later: map<Pointer, seq<nat>>, more: map<Pointer, seq<nat>>, value: Pointer, o: nat)
    requires Grown(reverse, later) && KeepsFirst(later, more) && more.Keys == later.Keys + {value}
    requires o % 2 == 1 && (value !in later ==> more[value] == [o])
    ensures Grown(reverse, more)
  {
  }

  lemma GrownTagged(reverse: map<Pointer, seq<nat>>, later: map<Pointer, seq<nat>>, value: seq<Pointer>)
    requires Grown(reverse, later) && forall j :: 0 <= j < |value| ==> value[j] in later
    ensures KeepsFirst(reverse, later) && forall v :: v in value && v !in reverse ==> FirstIsTagged(later, v)
  {
  }

  /** m_reverseMap[value].push_back(occurrence) */
  method PushBack(reverse: map<Pointer, seq<nat>>, value: Pointer, occurrence: nat, key: Pointer, ghost mentions: map<nat, Mention>)
    returns (extended: map<Pointer, seq<nat>>)
    requires Reverses(reverse, mentions) && occurrence !in mentions
    ensures Reverses(extended, mentions[occurrence := Mention(key, value)])
    ensures KeepsFirst(reverse, extended) && extended.Keys == reverse.Keys + {value}
    ensures value !in reverse ==> extended[value] == [occurrence]
  {
    extended := reverse[value := (if value in reverse then reverse[value] else []) + [occurrence]];
  }

  // ----- what is stored -----

  /** `o` is one of the places of the mapping of `key`. */
  predicate IsPlace(extra: seq<nat>, key: Pointer, encoded: nat, o: nat)
    requires Encodes(extra, encoded)
  {
    if encoded % 2 == 0 then o == key
    else o % 2 == 1 && encoded / 2 < o / 2 <= encoded / 2 + extra[encoded / 2]
  }

  function ValueAt(extra: seq<nat>, encoded: nat, o: nat): nat
  {
    if encoded % 2 == 0 then encoded else if o / 2 < |extra| then extra[o / 2] else 0
  }

  ghost predicate AllEncoded(mapping: map<Pointer, nat>, extra: seq<nat>)
  {
    forall k :: k in mapping ==> Encodes(extra, mapping[k])
  }

  /** Every place of the mapping is mentioned, and the size of a stored tuple is not taken for a value. */
  ghost predicate KeyMentioned(extra: seq<nat>, mentions: map<nat, Mention>, key: Pointer, encoded: nat)
    requires Encodes(extra, encoded)
  {
    && (forall o: nat :: IsPlace(extra, key, encoded, o) ==>
                           o in mentions && mentions[o].key == key && mentions[o].value == ValueAt(extra, encoded, o))
    && (encoded % 2 == 1 ==> encoded !in mentions)
  }

  predicate Owned(mapping: map<Pointer, nat>, extra: seq<nat>, key: Pointer, o: nat)
  {
    key in mapping && Encodes(extra, mapping[key]) && IsPlace(extra, key, mapping[key], o)
  }

  /** The mentions are exactly the places of the mappings, so that no two mappings share a place. */
  ghost predicate Stored(mapping: map<Pointer, nat>, extra: seq<nat>, mentions: map<nat, Mention>)
  {
    && AllEncoded(mapping, extra)
    && (forall k :: k in mapping ==> KeyMentioned(extra, mentions, k, mapping[k]))
    && (forall o :: o in mentions ==> Owned(mapping, extra, mentions[o].key, o))
  }

  ghost function Contents(mapping: map<Pointer, nat>, extra: seq<nat>): map<Pointer, seq<Pointer>>
    requires AllEncoded(mapping, extra)
  {
    map k | k in mapping :: Decode(extra, mapping[k])
  }

  ghost function WithoutKey(mentions: map<nat, Mention>, key: Pointer): map<nat, Mention>
  {
    map o | o in mentions && mentions[o].key != key :: mentions[o]
  }

  lemma StoredWithoutKey(mapping: map<Pointer, nat>, extra: seq<nat>, mentions: map<nat, Mention>, key: Pointer)
    requires Stored(mapping, extra, mentions)
    ensures Stored(mapping - {key}, extra, WithoutKey(mentions, key))
  {
    hide Encodes;
    hide IsPlace;
    hide ValueAt;
  }

  lemma ContentsWithoutKey(mapping: map<Pointer, nat>, extra: seq<nat>, key: Pointer)
    requires AllEncoded(mapping, extra)
    ensures AllEncoded(mapping - {key}, extra)
    ensures Contents(mapping - {key}, extra) == Contents(mapping, extra) - {key}
  {
    hide Encodes;
    hide Decode;
  }

  lemma WithoutAbsentKey(mapping: map<Pointer, nat>, extra: seq<nat>, mentions: map<nat, Mention>, key: Pointer)
    requires Stored(mapping, extra, mentions) && key !in mapping
    ensures WithoutKey(mentions, key) == mentions && mapping - {key} == mapping
  {
    hide Encodes;
    hide IsPlace;
    hide ValueAt;
  }

  // ----- a new single value -----

  lemma SingleEncoded(extra: seq<nat>, key: Pointer, value: Pointer)
    ensures Encodes(extra, value) && Decode(extra, value) == [value]
    ensures forall o: nat :: IsPlace(extra, key, value, o) <==> o == key
    ensures forall o: nat :: ValueAt(extra, value, o) == value
  {
  }

  lemma EvenMention(mapping: map<Pointer, nat>, extra: seq<nat>, mentions: map<nat, Mention>, o: nat)
    requires Stored(mapping, extra, mentions) && o % 2 == 0 && o in mentions
    ensures o in mapping && mentions[o].key == o && mapping[o] % 2 == 0
  {
    hide Encodes;
    assert Owned(mapping, extra, mentions[o].key, o);
  }

  lemma StoredSingle(mapping: map<Pointer, nat>, extra: seq<nat>, mentions: map<nat, Mention>, key: Pointer, value: Pointer)
    requires Stored(mapping, extra, mentions) && key !in mapping
    ensures key !in mentions
    ensures Stored(mapping[key := value], extra, mentions[key := Mention(key, value)])
  {
    if key in mentions { EvenMention(mapping, extra, mentions, key); }
    hide Encodes;
    hide IsPlace;
    hide ValueAt;
    hide Owned;
    SingleEncoded(extra, key, value);
    var all := mentions[key := Mention(key, value)];
    forall k | k in mapping ensures KeyMentioned(extra, all, k, mapping[k]) {
      assert KeyMentioned(extra, mentions, k, mapping[k]);
      StillMentioned(extra, mentions, key, value, k, mapping[k]);
    }
    hide KeyMentioned;
    assert KeyMentioned(extra, all, key, value);
    forall o | o in all ensures Owned(mapping[key := value], extra, all[o].key, o) {
    }
  }

  lemma StillMentioned(extra: seq<nat>, mentions: map<nat, Mention>, key: Pointer, value: Pointer, k: Pointer, encoded: nat)
    requires Encodes(extra, encoded) && KeyMentioned(extra, mentions, k, encoded) && key !in mentions
    ensures KeyMentioned(extra, mentions[key := Mention(key, value)], k, encoded)
  {
    hide Encodes;
    hide IsPlace;
    hide ValueAt;
  }

  lemma ContentsUpdated(mapping: map<Pointer, nat>, extra: seq<nat>, key: Pointer, encoded: nat)
    requires AllEncoded(mapping, extra) && Encodes(extra, encoded)
    ensures AllEncoded(mapping[key := encoded], extra)
    ensures Contents(mapping[key := encoded], extra) == Contents(mapping, extra)[key := Decode(extra, encoded)]
  {
    hide Encodes;
    hide Decode;
  }

  // ----- a new tuple -----

  /** The mentions with those of the tuple `values` stored from index `first` on. */
  ghost function WithTuple(mentions: map<nat, Mention>, key: Pointer, first: nat, values: seq<Pointer>): map<nat, Mention>
  {
    if values == [] then mentions
    else WithTuple(mentions, key, first, values[..|values| - 1])[Tagged(first + |values| - 1) := Mention(key, values[|values| - 1])]
  }

  lemma {:induction false} WithTupleAt(mentions: map<nat, Mention>, key: Pointer, first: nat, values: seq<Pointer>, o: nat)
    ensures o in WithTuple(mentions, key, first, values) <==> o in mentions || (o % 2 == 1 && first <= o / 2 < first + |values|)
    ensures o in WithTuple(mentions, key, first, values) ==>
              WithTuple(mentions, key, first, values)[o] ==
              if o % 2 == 1 && first <= o / 2 < first + |values| then Mention(key, values[o / 2 - first]) else mentions[o]
  {
    if values != [] {
      WithTupleAt(mentions, key, first, values[..|values| - 1], o);
    }
  }

  /** More stored tuples leave the existing ones alone. */
  lemma EncodesLonger(extra: seq<nat>, more: seq<nat>, key: Pointer, encoded: nat)
    requires Encodes(extra, encoded)
    ensures Encodes(extra + more, encoded) && Decode(extra + more, encoded) == Decode(extra, encoded)
    ensures forall o: nat :: IsPlace(extra + more, key, encoded, o) <==> IsPlace(extra, key, encoded, o)
    ensures forall o: nat :: IsPlace(extra, key, encoded, o) ==> ValueAt(extra + more, encoded, o) == ValueAt(extra, encoded, o)
  {
    if encoded % 2 == 1 {
      var index := encoded / 2;
      var count := extra[index];
      assert (extra + more)[index] == count;
      assert (extra + more)[index + 1..index + 1 + count] == extra[index + 1..index + 1 + count];
    }
  }

  lemma StoredLonger(mapping: map<Pointer, nat>, extra: seq<nat>, mentions: map<nat, Mention>, more: seq<nat>)
    requires Stored(mapping, extra, mentions)
    ensures Stored(mapping, extra + more, mentions)
    ensures AllEncoded(mapping, extra + more) && Contents(mapping, extra + more) == Contents(mapping, extra)
  {
    hide Encodes;
    hide IsPlace;
    hide ValueAt;
    hide Decode;
    forall k | k in mapping
      ensures Encodes(extra + more, mapping[k]) && Decode(extra + more, mapping[k]) == Decode(extra, mapping[k])
      ensures KeyMentioned(extra + more, mentions, k, mapping[k])
    {
      EncodesLonger(extra, more, k, mapping[k]);
      assert KeyMentioned(extra, mentions, k, mapping[k]);
    }
    forall o | o in mentions ensures Owned(mapping, extra + more, mentions[o].key, o) {
      assert Owned(mapping, extra, mentions[o].key, o);
      EncodesLonger(extra, more, mentions[o].key, mapping[mentions[o].key]);
    }
  }

  /** The stored form of a tuple: its size and then its values. */
  function TupleEntry(values: seq<Pointer>): seq<nat> { [|values|] + values }

  lemma TupleEncoded(extra: seq<nat>, key: Pointer, values: seq<Pointer>)
    requires 2 <= |values|
    ensures var longer, encoded := extra + TupleEntry(values), Tagged(|extra|);
            && Encodes(longer, encoded) && Decode(longer, encoded) == values
            && (forall o: nat :: IsPlace(longer, key, encoded, o) <==> o % 2 == 1 && |extra| < o / 2 <= |extra| + |values|)
            && (forall o: nat :: IsPlace(longer, key, encoded, o) ==> ValueAt(longer, encoded, o) == values[o / 2 - (|extra| + 1)])
  {
    var longer := extra + TupleEntry(values);
    assert longer[|extra|] == |values|;
    assert longer[|extra| + 1..|extra| + 1 + |values|] == values;
  }

  lemma OddMention(mapping: map<Pointer, nat>, extra: seq<nat>, mentions: map<nat, Mention>, o: nat)
    requires Stored(mapping, extra, mentions) && o % 2 == 1 && o in mentions
    ensures o / 2 < |extra|
  {
    assert Owned(mapping, extra, mentions[o].key, o);
  }

  lemma StoredTuple(mapping: map<Pointer, nat>, extra: seq<nat>, mentions: map<nat, Mention>, key: Pointer, values: seq<Pointer>)
    requires Stored(mapping, extra, mentions) && key !in mapping && 2 <= |values|
    ensures Stored(mapping[key := Tagged(|extra|)], extra + TupleEntry(values), WithTuple(mentions, key, |extra| + 1, values))
    ensures Encodes(extra + TupleEntry(values), Tagged(|extra|)) && Decode(extra + TupleEntry(values), Tagged(|extra|)) == values
  {
    hide Encodes;
    hide IsPlace;
    hide ValueAt;
    hide Decode;
    hide WithTuple;
    hide TupleEntry;
    hide KeyMentioned;
    hide Owned;
    var longer := extra + TupleEntry(values);
    var all := WithTuple(mentions, key, |extra| + 1, values);
    StoredLonger(mapping, extra, mentions, TupleEntry(values));
    TupleEncoded(extra, key, values);
    if Tagged(|extra|) in mentions { OddMention(mapping, extra, mentions, Tagged(|extra|)); }
    NewTupleMentioned(extra, mentions, key, values);
    forall k | k in mapping ensures KeyMentioned(longer, all, k, mapping[k]) {
      OldKeyMentioned(mapping, extra, mentions, key, values, k);
    }
    forall o | o in all ensures Owned(mapping[key := Tagged(|extra|)], longer, all[o].key, o) {
      TupleOwned(mapping, extra, mentions, key, values, o);
    }
  }

  lemma NewTupleMentioned(extra: seq<nat>, mentions: map<nat, Mention>, key: Pointer, values: seq<Pointer>)
    requires 2 <= |values| && Tagged(|extra|) !in mentions
    ensures Encodes(extra + TupleEntry(values), Tagged(|extra|))
    ensures KeyMentioned(extra + TupleEntry(values), WithTuple(mentions, key, |extra| + 1, values), key, Tagged(|extra|))
  {
    hide Encodes;
    hide IsPlace;
    hide ValueAt;
    hide WithTuple;
    hide TupleEntry;
    TupleEncoded(extra, key, values);
    WithTupleAt(mentions, key, |extra| + 1, values, Tagged(|extra|));
    forall o: nat | IsPlace(extra + TupleEntry(values), key, Tagged(|extra|), o)
      ensures o in WithTuple(mentions, key, |extra| + 1, values)
      ensures WithTuple(mentions, key, |extra| + 1, values)[o] == Mention(key, values[o / 2 - (|extra| + 1)])
    {
      WithTupleAt(mentions, key, |extra| + 1, values, o);
    }
  }

  lemma EncodedInside(extra: seq<nat>, encoded: nat)
    requires Encodes(extra, encoded) && encoded % 2 == 1
    ensures encoded / 2 < |extra|
  {
  }

  lemma OldKeyMentioned(mapping: map<Pointer, nat>, extra: seq<nat>, mentions: map<nat, Mention>, key: Pointer,
                        values: seq<Pointer>, k: Pointer)
    requires Stored(mapping, extra, mentions) && k in mapping
    ensures Encodes(extra + TupleEntry(values), mapping[k])
    ensures KeyMentioned(extra + TupleEntry(values), WithTuple(mentions, key, |extra| + 1, values), k, mapping[k])
  {
    hide Encodes;
    hide IsPlace;
    hide ValueAt;
    hide WithTuple;
    hide TupleEntry;
    hide Owned;
    var all := WithTuple(mentions, key, |extra| + 1, values);
    EncodesLonger(extra, TupleEntry(values), k, mapping[k]);
    assert KeyMentioned(extra, mentions, k, mapping[k]);
    WithTupleAt(mentions, key, |extra| + 1, values, mapping[k]);
    if mapping[k] % 2 == 1 { assert mapping[k] / 2 < |extra| by { EncodedInside(extra, mapping[k]); } }
    forall o: nat | IsPlace(extra, k, mapping[k], o) ensures o in all && all[o] == mentions[o] {
      WithTupleAt(mentions, key, |extra| + 1, values, o);
      if o % 2 == 1 { OddMention(mapping, extra, mentions, o); }
    }
  }

  lemma TupleOwned(mapping: map<Pointer, nat>, extra: seq<nat>, mentions: map<nat, Mention>, key: Pointer, values: seq<Pointer>, o: nat)
    requires Stored(mapping, extra, mentions) && key !in mapping && 2 <= |values|
    requires o in WithTuple(mentions, key, |extra| + 1, values)
    ensures Owned(mapping[key := Tagged(|extra|)], extra + TupleEntry(values), WithTuple(mentions, key, |extra| + 1, values)[o].key, o)
  {
    hide Encodes;
    hide IsPlace;
    hide ValueAt;
    hide WithTuple;
    hide TupleEntry;
    hide KeyMentioned;
    WithTupleAt(mentions, key, |extra| + 1, values, o);
    TupleEncoded(extra, key, values);
    if !(o % 2 == 1 && |extra| + 1 <= o / 2 < |extra| + 1 + |values|) {
      assert Owned(mapping, extra, mentions[o].key, o);
      EncodesLonger(extra, TupleEntry(values), mentions[o].key, mapping[mentions[o].key]);
    }
  }

  // ----- replacing a value in all mappings -----

  function Replaced(v: Pointer, from: Pointer, to: Pointer): Pointer { if v == from then to else v }

  function ReplacedTuple(values: seq<Pointer>, from: Pointer, to: Pointer): (r: seq<Pointer>)
    ensures |r| == |values|
  {
    seq(|values|, i requires 0 <= i < |values| => Replaced(values[i], from, to))
  }

  ghost function ReplacedContents(contents: map<Pointer, seq<Pointer>>, from: Pointer, to: Pointer): map<Pointer, seq<Pointer>>
  {
    map k | k in contents :: ReplacedTuple(contents[k], from, to)
  }

  ghost function ReplacedMentions(mentions: map<nat, Mention>, from: Pointer, to: Pointer): map<nat, Mention>
  {
    map o | o in mentions :: Mention(mentions[o].key, Replaced(mentions[o].value, from, to))
  }

  /** The mappings after the places in `done` have been overwritten. */
  ghost predicate Overwrites(mapping: map<Pointer, nat>, extra: seq<nat>, mentions: map<nat, Mention>, from: Pointer, to: Pointer,
                             done: seq<nat>, newMapping: map<Pointer, nat>, newExtra: seq<nat>)
  {
    && newMapping.Keys == mapping.Keys
    && |newExtra| == |extra|
    && (forall k :: k in mapping ==> newMapping[k] == if k in done then to else mapping[k])
    && (forall j: nat :: j < |extra| ==> newExtra[j] == if Tagged(j) in done then to else extra[j])
  }

  lemma KeyReplaced(mapping: map<Pointer, nat>, extra: seq<nat>, mentions: map<nat, Mention>, from: Pointer, to: Pointer,
                    done: seq<nat>, newMapping: map<Pointer, nat>, newExtra: seq<nat>, k: Pointer)
    requires Stored(mapping, extra, mentions) && k in mapping
    requires forall o :: o in done <==> o in mentions && mentions[o].value == from
    requires Overwrites(mapping, extra, mentions, from, to, done, newMapping, newExtra)
    ensures Encodes(newExtra, newMapping[k])
    ensures Decode(newExtra, newMapping[k]) == ReplacedTuple(Decode(extra, mapping[k]), from, to)
    ensures forall o: nat :: IsPlace(newExtra, k, newMapping[k], o) <==> IsPlace(extra, k, mapping[k], o)
    ensures forall o: nat :: IsPlace(extra, k, mapping[k], o) ==>
                               ValueAt(newExtra, newMapping[k], o) == Replaced(mentions[o].value, from, to)
    ensures newMapping[k] % 2 == 1 ==> newMapping[k] == mapping[k]
  {
    assert KeyMentioned(extra, mentions, k, mapping[k]);
    if mapping[k] % 2 == 0 {
      hide Encodes;
      hide Stored;
      OwnPlaces(mapping, extra, mentions, k, k);
      SingleEncoded(extra, k, mapping[k]);
      SingleEncoded(newExtra, k, newMapping[k]);
    } else {
      if k in mentions { EvenMention(mapping, extra, mentions, k); }
      hide Stored;
      TupleReplaced(extra, mentions, from, to, done, newExtra, k, mapping[k]);
    }
  }

  lemma TupleReplaced(extra: seq<nat>, mentions: map<nat, Mention>, from: Pointer, to: Pointer, done: seq<nat>, newExtra: seq<nat>,
                      key: Pointer, encoded: nat)
    requires Encodes(extra, encoded) && encoded % 2 == 1 && KeyMentioned(extra, mentions, key, encoded)
    requires forall o :: o in done <==> o in mentions && mentions[o].value == from
    requires |newExtra| == |extra| && forall j: nat :: j < |extra| ==> newExtra[j] == if Tagged(j) in done then to else extra[j]
    ensures Encodes(newExtra, encoded)
    ensures Decode(newExtra, encoded) == ReplacedTuple(Decode(extra, encoded), from, to)
    ensures newExtra[encoded / 2] == extra[encoded / 2]
    ensures forall o: nat :: IsPlace(extra, key, encoded, o) ==> newExtra[o / 2] == Replaced(mentions[o].value, from, to)
  {
    var index := encoded / 2;
    var count := extra[index];
    assert encoded == Tagged(index);
    assert newExtra[index] == count;
    forall j | index < j <= index + count
      ensures newExtra[j] == Replaced(extra[j], from, to)
    {
      assert IsPlace(extra, key, encoded, Tagged(j));
    }
    assert AllPointers(newExtra[index + 1..index + 1 + count]);
    forall o: nat | IsPlace(extra, key, encoded, o)
      ensures newExtra[o / 2] == Replaced(mentions[o].value, from, to)
    {
      assert o == Tagged(o / 2);
    }
  }

  lemma StoredReplaced(mapping: map<Pointer, nat>, extra: seq<nat>, mentions: map<nat, Mention>, from: Pointer, to: Pointer,
                       done: seq<nat>, newMapping: map<Pointer, nat>, newExtra: seq<nat>)
    requires Stored(mapping, extra, mentions)
    requires forall o :: o in done <==> o in mentions && mentions[o].value == from
    requires Overwrites(mapping, extra, mentions, from, to, done, newMapping, newExtra)
    ensures Stored(newMapping, newExtra, ReplacedMentions(mentions, from, to))
    ensures Contents(newMapping, newExtra) == ReplacedContents(Contents(mapping, extra), from, to)
  {
    hide Encodes;
    hide Decode;
    hide IsPlace;
    hide ValueAt;
    hide Overwrites;
    hide ReplacedTuple;
    var all := ReplacedMentions(mentions, from, to);
    assert newMapping.Keys == mapping.Keys by { SameSize(mapping, extra, mentions, from, to, done, newMapping, newExtra); }
    forall k | k in mapping
      ensures Encodes(newExtra, newMapping[k])
      ensures Decode(newExtra, newMapping[k]) == ReplacedTuple(Decode(extra, mapping[k]), from, to)
      ensures KeyMentioned(newExtra, all, k, newMapping[k])
    {
      KeyReplaced(mapping, extra, mentions, from, to, done, newMapping, newExtra, k);
      assert KeyMentioned(extra, mentions, k, mapping[k]);
    }
    forall o | o in all ensures Owned(newMapping, newExtra, all[o].key, o) {
      assert Owned(mapping, extra, mentions[o].key, o);
      KeyReplaced(mapping, extra, mentions, from, to, done, newMapping, newExtra, mentions[o].key);
    }
  }

  /** Overwriting one more place. */
  lemma OneMoreOverwritten(mapping: map<Pointer, nat>, extra: seq<nat>, mentions: map<nat, Mention>, from: Pointer, to: Pointer,
                           done: seq<nat>, o: nat, newMapping: map<Pointer, nat>, newExtra: seq<nat>)
    requires Overwrites(mapping, extra, mentions, from, to, done, newMapping, newExtra)
    requires if o % 2 == 1 then o / 2 < |extra| else o in mapping
    ensures Overwrites(mapping, extra, mentions, from, to, done + [o],
                       if o % 2 == 1 then newMapping else newMapping[o := to],
                       if o % 2 == 1 then newExtra[o / 2 := to] else newExtra)
  {
    assert forall x :: x in done + [o] <==> x in done || x == o;
    assert o % 2 == 1 ==> o == Tagged(o / 2);
  }

  // ----- the map -----

  class LoweringPointerTupleMap {
    var reverseMap: map<Pointer, seq<nat>>
    var mapping: map<Pointer, nat>
    var extra: seq<nat>
    ghost var mentions: map<nat, Mention>

    ghost predicate Valid()
      reads this
    {
      Stored(mapping, extra, mentions) && Reverses(reverseMap, mentions)
    }

    /** What the map represents; a missing entry stands for the empty tuple. */
    ghost function Tuples(): map<Pointer, seq<Pointer>>
      reads this
      requires AllEncoded(mapping, extra)
    {
      Contents(mapping, extra)
    }

    constructor ()
      ensures Valid() && Tuples() == map[] && reverseMap == map[]
    {
      reverseMap := map[];
      mapping := map[];
      extra := [];
      mentions := map[];
    }

    method Clear()
      modifies this
      ensures Valid() && Tuples() == map[]
    {
      reverseMap := map[];
      mapping := map[];
      extra := [];
      mentions := map[];
    }

    method Lookup(key: Pointer) returns (values: seq<Pointer>)
      requires Valid()
      ensures values == if key in Tuples() then Tuples()[key] else []
    {
      if key !in mapping {
        return [];
      }
      return Decode(extra, mapping[key]);
    }

    /** The first recorded mention of the value decides: the result is a key that is mapped to this value alone, or null exactly if
        the value is mentioned nowhere or the first mention is in a longer tuple. */
    method LookupUniqueKey(value: Pointer) returns (key: Pointer)
      requires Valid()
      ensures key == NULL || (key in Tuples() && Tuples()[key] == [value])
      ensures NULL !in Tuples() ==>
                (key == NULL <==> (forall k :: k in Tuples() ==> value !in Tuples()[k]) || FirstIsTagged(reverseMap, value))
    {
      hide Stored;
      hide Reverses;
      StoredAll(mapping, extra, mentions);
      if value !in reverseMap {
        forall k | k in mapping ensures value !in Decode(extra, mapping[k]) {
          if value in Decode(extra, mapping[k]) {
            ValueMentioned(mapping, extra, mentions, k, value);
            MentionedInReverse(reverseMap, mentions, k, value);
          }
        }
        return NULL;
      }
      FirstOccurrence(reverseMap, mentions, value);
      var first := reverseMap[value][0];
      if first % 2 == 1 {
        return NULL;
      }
      EvenMention(mapping, extra, mentions, first);
      OwnPlaces(mapping, extra, mentions, first, first);
      assert Tuples()[first] == [value];
      return first;
    }

    /** As long as no longer tuple contains the value, a key is found exactly if there is one. */
    method FindKey(value: Pointer) returns (key: Pointer)
      requires Valid() && NULL !in Tuples()
      requires forall k :: k in Tuples() && value in Tuples()[k] ==> |Tuples()[k]| == 1
      ensures key == NULL || (key in Tuples() && Tuples()[key] == [value])
      ensures key != NULL <==> exists k :: k in Tuples() && Tuples()[k] == [value]
    {
      key := LookupUniqueKey(value);
      hide Stored;
      hide Reverses;
      StoredAll(mapping, extra, mentions);
      if FirstIsTagged(reverseMap, value) {
        TaggedIsLonger(mapping, extra, reverseMap, mentions, value);
      }
      if k :| k in Tuples() && value in Tuples()[k] {
        assert Tuples()[k] == [value];
      }
    }

    /** An empty tuple removes the entry; any other one replaces it. */
    method Set(key: Pointer, value: seq<Pointer>) returns (values: seq<Pointer>)
      requires Valid()
      modifies this
      ensures Valid()
      ensures Tuples() == if value == [] then old(Tuples()) - {key} else old(Tuples())[key := value]
      ensures values == value
      ensures key !in old(Tuples()) && value != [] ==> KeepsFirst(old(reverseMap), reverseMap)
      ensures key !in old(Tuples()) ==>
                forall v :: v in value && v !in old(reverseMap) ==>
                            v in reverseMap && reverseMap[v] != [] && (FirstIsTagged(reverseMap, v) <==> |value| > 1)
    {
      hide Stored;
      hide Reverses;
      hide Decode;
      hide Contents;
      StoredAll(mapping, extra, mentions);
      StoredWithoutKey(mapping, extra, mentions, key);
      ContentsWithoutKey(mapping, extra, key);
      ContentsKeys(mapping, extra);
      ghost var others := mapping - {key};
      if key !in mapping {
        WithoutAbsentKey(mapping, extra, mentions, key);
      } else {
        ClearReverseMap(key);
      }
      if value == [] {
        mapping := mapping - {key};
        return [];
      }
      var encoded := Store(others, key, value);
      assert mapping[key := encoded] == others[key := encoded];
      mapping := mapping[key := encoded];
      return Decode(extra, encoded);
    }

    /** Encodes the new value and records where it is mentioned. */
    method Store(ghost others: map<Pointer, nat>, key: Pointer, value: seq<Pointer>) returns (encoded: nat)
      requires Stored(others, extra, mentions) && AllEncoded(others, extra) && Reverses(reverseMap, mentions)
      requires key !in others && value != []
      modifies this`extra, this`reverseMap, this`mentions
      ensures Stored(others[key := encoded], extra, mentions) && Reverses(reverseMap, mentions)
      ensures Encodes(extra, encoded) && Decode(extra, encoded) == value
      ensures AllEncoded(others[key := encoded], extra)
      ensures Contents(others[key := encoded], extra) == Contents(others, old(extra))[key := value]
      ensures KeepsFirst(old(reverseMap), reverseMap)
      ensures forall v :: v in value && v !in old(reverseMap) ==>
                            v in reverseMap && reverseMap[v] != [] && (FirstIsTagged(reverseMap, v) <==> |value| > 1)
    {
      hide Stored;
      hide Reverses;
      hide Contents;
      hide Encodes;
      hide Decode;
      if |value| == 1 {
        encoded := value[0];
        StoredSingle(others, extra, mentions, key, value[0]);
        reverseMap := PushBack(reverseMap, value[0], key, key, mentions);
        mentions := mentions[key := Mention(key, value[0])];
        SingleEncoded(extra, key, value[0]);
        assert value == [value[0]];
      } else {
        StoredTuple(others, extra, mentions, key, value);
        StoredLonger(others, extra, mentions, TupleEntry(value));
        encoded := AppendTuple(others, key, value);
      }
      ContentsUpdated(others, extra, key, encoded);
    }

    /** Stores a tuple and records the places of its values. */
    method AppendTuple(ghost others: map<Pointer, nat>, key: Pointer, value: seq<Pointer>) returns (encoded: nat)
      requires Stored(others, extra, mentions) && Reverses(reverseMap, mentions) && 2 <= |value|
      modifies this`extra, this`reverseMap, this`mentions
      ensures encoded == Tagged(|old(extra)|)
      ensures extra == old(extra) + TupleEntry(value)
      ensures mentions == WithTuple(old(mentions), key, |old(extra)| + 1, value) && Reverses(reverseMap, mentions)
      ensures KeepsFirst(old(reverseMap), reverseMap)
      ensures forall v :: v in value && v !in old(reverseMap) ==> FirstIsTagged(reverseMap, v)
    {
      hide Stored;
      hide Reverses;
      hide WithTuple;
      GrownNot(reverseMap);
      hide Grown;
      var index := |extra|;
      ghost var before := mentions;
      extra := extra + [|value|];
      WithNothing(before, key, index + 1);
      var i := 0;
      while i < |value|
        invariant 0 <= i <= |value|
        invariant extra == old(extra) + [|value|] + value[..i]
        invariant mentions == WithTuple(before, key, index + 1, value[..i]) && Reverses(reverseMap, mentions)
        invariant Grown(old(reverseMap), reverseMap)
        invariant forall j :: 0 <= j < i ==> value[j] in reverseMap
      {
        extra := extra + [value[i]];
        NextTuplePlace(others, old(extra), before, key, value, i);
        var extended := PushBack(reverseMap, value[i], Tagged(index + 1 + i), key, mentions);
        GrownFurther(old(reverseMap), reverseMap, extended, value[i], Tagged(index + 1 + i));
        reverseMap := extended;
        mentions := mentions[Tagged(index + 1 + i) := Mention(key, value[i])];
        assert value[..i + 1] == value[..i] + [value[i]];
        i := i + 1;
      }
      assert value[..|value|] == value;
      GrownTagged(old(reverseMap), reverseMap, value);
      return Tagged(index);
    }

    /** Replaces a value in all mappings. */
    method ReplaceAllUsesOfWith(toReplace: Pointer, with: Pointer)
      requires Valid()
      modifies this
      ensures Valid() && Tuples() == ReplacedContents(old(Tuples()), toReplace, with)
    {
      hide Stored;
      hide Reverses;
      hide Overwrites;
      StoredAll(mapping, extra, mentions);
      if toReplace == with {
        ReplacedBySame(Contents(mapping, extra), with);
        return;
      }
      if toReplace !in reverseMap {
        ReplacedNowhere(mapping, extra, reverseMap, mentions, toReplace, with);
        return;
      }
      var occurrences := reverseMap[toReplace];
      ReversesReplaced(reverseMap, mentions, toReplace, with);
      reverseMap := reverseMap - {toReplace};
      NothingOverwritten(mapping, extra, mentions, toReplace, with);
      var i := 0;
      while i < |occurrences|
        invariant 0 <= i <= |occurrences|
        invariant Overwrites(old(mapping), old(extra), mentions, toReplace, with, occurrences[..i], mapping, extra)
        invariant reverseMap == old(reverseMap) - {toReplace} && mentions == old(mentions)
      {
        var occurrence := occurrences[i];
        OccurrenceIsPlace(old(mapping), old(extra), old(reverseMap), mentions, toReplace, occurrence);
        OneMoreOverwritten(old(mapping), old(extra), mentions, toReplace, with, occurrences[..i], occurrence, mapping, extra);
        SameSize(old(mapping), old(extra), mentions, toReplace, with, occurrences[..i], mapping, extra);
        assert occurrences[..i + 1] == occurrences[..i] + [occurrence];
        if occurrence % 2 == 1 {
          extra := extra[occurrence / 2 := with];
        } else {
          mapping := mapping[occurrence := with];
        }
        i := i + 1;
      }
      assert occurrences[..i] == occurrences;
      AllOccurrences(old(reverseMap), mentions, toReplace);
      StoredReplaced(old(mapping), old(extra), mentions, toReplace, with, occurrences, mapping, extra);
      StoredAll(mapping, extra, ReplacedMentions(mentions, toReplace, with));
      if with in reverseMap {
        reverseMap := reverseMap[with := reverseMap[with] + occurrences];
      } else {
        reverseMap := reverseMap[with := occurrences];
        assert [] + occurrences == occurrences;
      }
      mentions := ReplacedMentions(mentions, toReplace, with);
    }

    /** Forgets the mentions in the mapping of `key`. */
    method ClearReverseMap(key: Pointer)
      requires Valid() && key in mapping
      modifies this`reverseMap, this`mentions
      ensures mentions == old(WithoutKey(mentions, key))
      ensures Reverses(reverseMap, mentions)
    {
      if mapping[key] % 2 == 0 {
        SinglePlace(mapping, extra, mentions, key);
        reverseMap := ClearEntry(reverseMap, mapping[key], key, mentions);
        mentions := mentions - {key};
      } else {
        ClearTuple(key);
      }
    }

    method ClearTuple(key: Pointer)
      requires Valid() && key in mapping && mapping[key] % 2 == 1
      modifies this`reverseMap, this`mentions
      ensures mentions == old(WithoutKey(mentions, key))
      ensures Reverses(reverseMap, mentions)
    {
      hide Stored;
      hide Reverses;
      hide Left;
      assert Encodes(extra, mapping[key]) by { StoredEncodes(mapping, extra, mentions, key); }
      var index := mapping[key] / 2;
      var count := extra[index];
      ghost var before := mentions;
      LeftAll(mapping, extra, before, key);
      var i := 0;
      while i != count
        invariant 0 <= i <= count
        invariant mentions == Left(before, key, index + i) && Reverses(reverseMap, mentions)
      {
        LeftNext(mapping, extra, before, key, index + i);
        var oldValue := extra[index + 1 + i];
        reverseMap := ClearEntry(reverseMap, oldValue, Tagged(index + 1 + i), mentions);
        mentions := mentions - {Tagged(index + 1 + i)};
        i := i + 1;
      }
      LeftNone(mapping, extra, before, key);
    }
  }

  lemma StoredEncodes(mapping: map<Pointer, nat>, extra: seq<nat>, mentions: map<nat, Mention>, key: Pointer)
    requires Stored(mapping, extra, mentions) && key in mapping
    ensures Encodes(extra, mapping[key])
  {
  }

  /** The mentions without those of `key` up to index `bound`. */
  ghost function Left(mentions: map<nat, Mention>, key: Pointer, bound: nat): map<nat, Mention>
  {
    map o | o in mentions && (mentions[o].key == key ==> bound < o / 2) :: mentions[o]
  }

  lemma OwnPlaces(mapping: map<Pointer, nat>, extra: seq<nat>, mentions: map<nat, Mention>, key: Pointer, o: nat)
    requires Stored(mapping, extra, mentions) && key in mapping
    ensures Encodes(extra, mapping[key])
    ensures IsPlace(extra, key, mapping[key], o) <==> o in mentions && mentions[o].key == key
    ensures IsPlace(extra, key, mapping[key], o) ==> mentions[o].value == ValueAt(extra, mapping[key], o)
  {
    hide Encodes;
    hide IsPlace;
    hide ValueAt;
    assert KeyMentioned(extra, mentions, key, mapping[key]);
    if o in mentions { assert Owned(mapping, extra, mentions[o].key, o); }
  }

  lemma SinglePlace(mapping: map<Pointer, nat>, extra: seq<nat>, mentions: map<nat, Mention>, key: Pointer)
    requires Stored(mapping, extra, mentions) && key in mapping && mapping[key] % 2 == 0
    ensures key in mentions && mentions[key].value == mapping[key]
    ensures mentions - {key} == WithoutKey(mentions, key)
  {
    hide Stored;
    forall o: nat ensures o in mentions && mentions[o].key == key <==> o == key { OwnPlaces(mapping, extra, mentions, key, o); }
    OwnPlaces(mapping, extra, mentions, key, key);
  }

  lemma LeftAll(mapping: map<Pointer, nat>, extra: seq<nat>, mentions: map<nat, Mention>, key: Pointer)
    requires Stored(mapping, extra, mentions) && key in mapping && mapping[key] % 2 == 1
    ensures Left(mentions, key, mapping[key] / 2) == mentions
  {
    hide Stored;
    forall o | o in mentions && mentions[o].key == key ensures mapping[key] / 2 < o / 2 {
      OwnPlaces(mapping, extra, mentions, key, o);
    }
  }

  lemma LeftNext(mapping: map<Pointer, nat>, extra: seq<nat>, mentions: map<nat, Mention>, key: Pointer, bound: nat)
    requires Stored(mapping, extra, mentions) && key in mapping && mapping[key] % 2 == 1 && Encodes(extra, mapping[key])
    requires mapping[key] / 2 <= bound < mapping[key] / 2 + extra[mapping[key] / 2]
    ensures var place := Tagged(bound + 1);
            && place in Left(mentions, key, bound)
            && Left(mentions, key, bound)[place].value == extra[bound + 1]
            && Left(mentions, key, bound) - {place} == Left(mentions, key, bound + 1)
  {
    hide Stored;
    var place := Tagged(bound + 1);
    OwnPlaces(mapping, extra, mentions, key, place);
    forall o | o in mentions && mentions[o].key == key ensures o / 2 == bound + 1 ==> o == place {
      OwnPlaces(mapping, extra, mentions, key, o);
    }
    var l, r := Left(mentions, key, bound) - {place}, Left(mentions, key, bound + 1);
    assert forall o :: o in l <==> o in r;
  }

  lemma LeftNone(mapping: map<Pointer, nat>, extra: seq<nat>, mentions: map<nat, Mention>, key: Pointer)
    requires Stored(mapping, extra, mentions) && key in mapping && mapping[key] % 2 == 1 && Encodes(extra, mapping[key])
    ensures Left(mentions, key, mapping[key] / 2 + extra[mapping[key] / 2]) == WithoutKey(mentions, key)
  {
    hide Stored;
    forall o | o in mentions && mentions[o].key == key ensures o / 2 <= mapping[key] / 2 + extra[mapping[key] / 2] {
      OwnPlaces(mapping, extra, mentions, key, o);
    }
  }

  lemma StoredAll(mapping: map<Pointer, nat>, extra: seq<nat>, mentions: map<nat, Mention>)
    requires Stored(mapping, extra, mentions)
    ensures AllEncoded(mapping, extra)
  {
  }

  lemma WithNothing(mentions: map<nat, Mention>, key: Pointer, first: nat)
    ensures WithTuple(mentions, key, first, []) == mentions
  {
  }

  /** The next place of a new tuple is not in use. */
  lemma NextTuplePlace(mapping: map<Pointer, nat>, extra: seq<nat>, mentions: map<nat, Mention>, key: Pointer, value: seq<Pointer>, i: nat)
    requires Stored(mapping, extra, mentions) && i < |value|
    ensures var first := |extra| + 1;
            && Tagged(first + i) !in WithTuple(mentions, key, first, value[..i])
            && WithTuple(mentions, key, first, value[..i] + [value[i]]) ==
               WithTuple(mentions, key, first, value[..i])[Tagged(first + i) := Mention(key, value[i])]
  {
    hide Stored;
    var o := Tagged(|extra| + 1 + i);
    WithTupleAt(mentions, key, |extra| + 1, value[..i], o);
    if o in mentions { OddMention(mapping, extra, mentions, o); }
    var longer := value[..i] + [value[i]];
    assert longer[..|longer| - 1] == value[..i];
  }

  lemma ReplacedBySame(contents: map<Pointer, seq<Pointer>>, value: Pointer)
    ensures ReplacedContents(contents, value, value) == contents
  {
    forall k | k in contents ensures ReplacedTuple(contents[k], value, value) == contents[k] {
    }
  }

  /** Every value of a mapping is mentioned. */
  lemma ValueMentioned(mapping: map<Pointer, nat>, extra: seq<nat>, mentions: map<nat, Mention>, key: Pointer, value: Pointer)
    requires Stored(mapping, extra, mentions) && key in mapping && Encodes(extra, mapping[key])
    requires value in Decode(extra, mapping[key])
    ensures exists o :: o in mentions && mentions[o] == Mention(key, value)
  {
    hide Stored;
    var encoded := mapping[key];
    var values := Decode(extra, encoded);
    var i :| 0 <= i < |values| && values[i] == value;
    var o := if encoded % 2 == 0 then key else Tagged(encoded / 2 + 1 + i);
    OwnPlaces(mapping, extra, mentions, key, o);
    assert mentions[o] == Mention(key, value);
  }

  lemma ReplacedNowhere(mapping: map<Pointer, nat>, extra: seq<nat>, reverse: map<Pointer, seq<nat>>, mentions: map<nat, Mention>,
                        from: Pointer, to: Pointer)
    requires Stored(mapping, extra, mentions) && Reverses(reverse, mentions) && from !in reverse && AllEncoded(mapping, extra)
    ensures ReplacedContents(Contents(mapping, extra), from, to) == Contents(mapping, extra)
  {
    hide Stored;
    hide Encodes;
    hide Decode;
    forall k | k in mapping
      ensures ReplacedTuple(Decode(extra, mapping[k]), from, to) == Decode(extra, mapping[k])
    {
      if from in Decode(extra, mapping[k]) { ValueMentioned(mapping, extra, mentions, k, from); }
    }
  }

  lemma AllOccurrences(reverse: map<Pointer, seq<nat>>, mentions: map<nat, Mention>, value: Pointer)
    requires Reverses(reverse, mentions) && value in reverse
    ensures forall o :: o in reverse[value] <==> o in mentions && mentions[o].value == value
  {
  }

  lemma OccurrenceIsPlace(mapping: map<Pointer, nat>, extra: seq<nat>, reverse: map<Pointer, seq<nat>>, mentions: map<nat, Mention>,
                          value: Pointer, o: nat)
    requires Stored(mapping, extra, mentions) && Reverses(reverse, mentions) && value in reverse && o in reverse[value]
    ensures if o % 2 == 1 then o / 2 < |extra| else o in mapping
  {
    hide Stored;
    AllOccurrences(reverse, mentions, value);
    if o % 2 == 1 { OddMention(mapping, extra, mentions, o); } else { EvenMention(mapping, extra, mentions, o); }
  }

  lemma NothingOverwritten(mapping: map<Pointer, nat>, extra: seq<nat>, mentions: map<nat, Mention>, from: Pointer, to: Pointer)
    ensures Overwrites(mapping, extra, mentions, from, to, [], mapping, extra)
  {
  }

  lemma SameSize(mapping: map<Pointer, nat>, extra: seq<nat>, mentions: map<nat, Mention>, from: Pointer, to: Pointer,
                 done: seq<nat>, newMapping: map<Pointer, nat>, newExtra: seq<nat>)
    requires Overwrites(mapping, extra, mentions, from, to, done, newMapping, newExtra)
    ensures |newExtra| == |extra| && newMapping.Keys == mapping.Keys
  {
  }

  /** The reverse map after the occurrences of `from` have been moved to `to`. */
  function Moved(reverse: map<Pointer, seq<nat>>, from: Pointer, to: Pointer): map<Pointer, seq<nat>>
    requires from in reverse
  {
    var rest := reverse - {from};
    rest[to := (if to in rest then rest[to] else []) + reverse[from]]
  }

  lemma ReversesReplaced(reverse: map<Pointer, seq<nat>>, mentions: map<nat, Mention>, from: Pointer, to: Pointer)
    requires Reverses(reverse, mentions) && from in reverse && from != to
    ensures Reverses(Moved(reverse, from, to), ReplacedMentions(mentions, from, to))
  {
    hide NoDuplicates;
    hide AllMention;
    hide Lists;
    var all := ReplacedMentions(mentions, from, to);
    JoinedOccurrences(reverse, mentions, from, to);
    forall o | o in mentions ensures Lists(Moved(reverse, from, to), all[o], o) {
      MovedLists(reverse, mentions[o], o, from, to);
    }
    forall v | v in reverse && v != to && v != from ensures AllMention(reverse[v], all, v) {
      AllStillMention(reverse[v], mentions, v, from, to);
    }
    AllStillMention(reverse[from], mentions, from, from, to);
    if to in reverse { AllStillMention(reverse[to], mentions, to, from, to); }
    AllMentionJoined(if to in reverse then reverse[to] else [], reverse[from], all, to);
  }

  lemma MovedLists(reverse: map<Pointer, seq<nat>>, mention: Mention, o: nat, from: Pointer, to: Pointer)
    requires Lists(reverse, mention, o) && from in reverse && from != to
    ensures Lists(Moved(reverse, from, to), Mention(mention.key, Replaced(mention.value, from, to)), o)
  {
  }

  lemma AllStillMention(occurrences: seq<nat>, mentions: map<nat, Mention>, value: Pointer, from: Pointer, to: Pointer)
    requires AllMention(occurrences, mentions, value)
    ensures AllMention(occurrences, ReplacedMentions(mentions, from, to), Replaced(value, from, to))
  {
  }

  lemma AllMentionJoined(s: seq<nat>, t: seq<nat>, mentions: map<nat, Mention>, value: Pointer)
    requires (s == [] || AllMention(s, mentions, value)) && AllMention(t, mentions, value)
    ensures AllMention(s + t, mentions, value)
  {
  }

  lemma JoinedOccurrences(reverse: map<Pointer, seq<nat>>, mentions: map<nat, Mention>, from: Pointer, to: Pointer)
    requires Reverses(reverse, mentions) && from in reverse && from != to
    ensures NoDuplicates((if to in reverse then reverse[to] else []) + reverse[from])
  {
    var earlier := if to in reverse then reverse[to] else [];
    forall x | x in earlier ensures x !in reverse[from] {
      assert mentions[x].value == to;
    }
    assert NoDuplicates(earlier) && NoDuplicates(reverse[from]);
    JoinedNoDuplicates(earlier, reverse[from]);
  }

  lemma JoinedNoDuplicates(s: seq<nat>, t: seq<nat>)
    requires NoDuplicates(s) && NoDuplicates(t) && forall x :: x in s ==> x !in t
    ensures NoDuplicates(s + t)
  {
    forall i, j | 0 <= i < j < |s + t| ensures (s + t)[i] != (s + t)[j] {
      if i < |s| <= j { assert s[i] in s && t[j - |s|] in t; }
    }
  }

  lemma MentionedInReverse(reverse: map<Pointer, seq<nat>>, mentions: map<nat, Mention>, key: Pointer, value: Pointer)
    requires Reverses(reverse, mentions) && exists o :: o in mentions && mentions[o] == Mention(key, value)
    ensures value in reverse
  {
  }

  lemma FirstOccurrence(reverse: map<Pointer, seq<nat>>, mentions: map<nat, Mention>, value: Pointer)
    requires Reverses(reverse, mentions) && value in reverse
    ensures reverse[value] != [] && reverse[value][0] in mentions && mentions[reverse[value][0]].value == value
  {
    assert reverse[value][0] in reverse[value];
  }

  lemma TaggedIsLonger(mapping: map<Pointer, nat>, extra: seq<nat>, reverse: map<Pointer, seq<nat>>, mentions: map<nat, Mention>,
                       value: Pointer)
    requires Stored(mapping, extra, mentions) && Reverses(reverse, mentions) && FirstIsTagged(reverse, value)
    ensures AllEncoded(mapping, extra)
    ensures exists k :: k in mapping && value in Contents(mapping, extra)[k] && |Contents(mapping, extra)[k]| > 1
  {
    FirstOccurrence(reverse, mentions, value);
    TupleMentions(mapping, extra, mentions, reverse[value][0]);
    hide Reverses;
    hide Stored;
    StoredAll(mapping, extra, mentions);
    var k := mentions[reverse[value][0]].key;
    assert Contents(mapping, extra)[k] == Decode(extra, mapping[k]);
  }

  lemma ContentsKeys(mapping: map<Pointer, nat>, extra: seq<nat>)
    requires AllEncoded(mapping, extra)
    ensures Contents(mapping, extra).Keys == mapping.Keys
  {
  }

  lemma TupleMentions(mapping: map<Pointer, nat>, extra: seq<nat>, mentions: map<nat, Mention>, o: nat)
    requires Stored(mapping, extra, mentions) && o in mentions && o % 2 == 1
    ensures var k := mentions[o].key;
            && k in mapping && Encodes(extra, mapping[k])
            && mentions[o].value in Decode(extra, mapping[k]) && |Decode(extra, mapping[k])| > 1
  {
    var k := mentions[o].key;
    assert Owned(mapping, extra, k, o);
    hide Stored;
    OwnPlaces(mapping, extra, mentions, k, o);
    assert Decode(extra, mapping[k])[o / 2 - mapping[k] / 2 - 1] == mentions[o].value;
  }

  /** One key is mapped to the value alone, and it is the only one, yet it is found only if its mapping was recorded before the
      longer tuple that contains the value. */
  method FindAmongTuples(value: Pointer, other: Pointer, longer: Pointer, single: Pointer, longerFirst: bool)
    returns (m: LoweringPointerTupleMap, key: Pointer)
    requires longer != single && longer != NULL && single != NULL
    ensures m.Valid() && m.Tuples() == map[longer := [value, other], single := [value]]
    ensures key == if longerFirst then NULL else single
  {
    hide KeyMentioned;
    hide Owned;
    hide Reverses;
    hide Encodes;
    hide Decode;
    m := new LoweringPointerTupleMap();
    if longerFirst {
      var _ := m.Set(longer, [value, other]);
      assert FirstIsTagged(m.reverseMap, value);
      var _ := m.Set(single, [value]);
      assert FirstIsTagged(m.reverseMap, value);
    } else {
      var _ := m.Set(single, [value]);
      assert value in m.reverseMap && !FirstIsTagged(m.reverseMap, value);
      var _ := m.Set(longer, [value, other]);
      assert !FirstIsTagged(m.reverseMap, value);
    }
    assert m.Tuples() == map[longer := [value, other], single := [value]];
    key := m.LookupUniqueKey(value);
    assert |m.Tuples()[longer]| == 2 && m.Tuples()[single] == [value];
  }
}
