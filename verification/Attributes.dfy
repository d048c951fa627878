/** Attribute lists: copying, and the key-wise merge an update performs. */
module Attributes {
  import opened Records

  /** The non-nil elements, in order. */
  function NonNil(attrs: seq<Option<Attribute>>): seq<Attribute> {
    if attrs == [] then []
    else (if attrs[0].Some? then [attrs[0].value] else []) + NonNil(attrs[1..])
  }

  /** The position of the first attribute with the key, or the length. */
  function FirstMatch(attrs: seq<Attribute>, key: string): (i: nat)
    ensures i <= |attrs|
    ensures i < |attrs| ==> attrs[i].key == key
    ensures forall j :: 0 <= j < i ==> attrs[j].key != key
  {
    if attrs == [] then 0
    else if attrs[0].key == key then 0
    else 1 + FirstMatch(attrs[1..], key)
  }

  /** First-match lookup. */
  function Lookup(attrs: seq<Attribute>, key: string): Option<Attribute> {
    var i := FirstMatch(attrs, key);
    if i < |attrs| then Some(attrs[i]) else None
  }

  function SetAttribute(attrs: seq<Attribute>, a: Attribute): seq<Attribute> {
    var i := FirstMatch(attrs, a.key);
    if i < |attrs| then attrs[i := a] else attrs + [a]
  }

  /** An incoming attribute takes effect unless it is nil or its key is empty. */
  predicate Effective(incoming: Option<Attribute>) {
    incoming.Some? && incoming.value.key != ""
  }

  /** The list after an update delivers `incoming`, applied from the left. */
  function Merge(attrs: seq<Attribute>, incoming: seq<Option<Attribute>>): seq<Attribute> {
    if incoming == [] then attrs
    else
      var before := Merge(attrs, incoming[..|incoming| - 1]);
      var last := incoming[|incoming| - 1];
      if Effective(last) then SetAttribute(before, last.value) else before
  }

  /** The last effective write to a key. */
  function LastWrite(incoming: seq<Option<Attribute>>, key: string): Option<Attribute> {
    if incoming == [] then None
    else
      var last := incoming[|incoming| - 1];
      if Effective(last) && last.value.key == key then last
      else LastWrite(incoming[..|incoming| - 1], key)
  }

  /** The keys, in order. */
  function Keys(attrs: seq<Attribute>): seq<string> {
    seq(|attrs|, i requires 0 <= i < |attrs| => attrs[i].key)
  }

  /** The keys the writes add to a list that has `known`, by first appearance. */
  function NewKeys(known: seq<string>, incoming: seq<Option<Attribute>>): seq<string> {
    if incoming == [] then []
    else
      var before := NewKeys(known, incoming[..|incoming| - 1]);
      var last := incoming[|incoming| - 1];
      if Effective(last) && last.value.key !in known + before then before + [last.value.key]
      else before
  }

  lemma SetAttributeLookup(attrs: seq<Attribute>, a: Attribute, key: string)
    ensures Lookup(SetAttribute(attrs, a), key) == if key == a.key then Some(a) else Lookup(attrs, key)
  {
    var after := SetAttribute(attrs, a);
    var i, j := FirstMatch(attrs, key), FirstMatch(after, key);
    if key == a.key {
      assert after[i] == a;
      assert j == i;
    } else if i < |attrs| {
      assert after[i] == attrs[i];
      assert j == i;
    } else {
      assert forall k :: 0 <= k < |after| ==> after[k].key != key;
      assert j == |after|;
    }
  }

  lemma KeyMember(attrs: seq<Attribute>, key: string)
    ensures key in Keys(attrs) <==> FirstMatch(attrs, key) < |attrs|
  {
    var i := FirstMatch(attrs, key);
    if i < |attrs| {
      assert Keys(attrs)[i] == key;
    }
  }

  /** An update overrides an ordered map: under first-match lookup every key
      takes its last effective write or keeps its old attribute; the old keys
      keep their positions and the new ones follow in order of appearance. */
  lemma {:induction false} MergeOverrides(attrs: seq<Attribute>, incoming: seq<Option<Attribute>>)
    ensures forall key :: Lookup(Merge(attrs, incoming), key) ==
                          (var w := LastWrite(incoming, key); if w.Some? then w else Lookup(attrs, key))
    ensures Keys(Merge(attrs, incoming)) == Keys(attrs) + NewKeys(Keys(attrs), incoming)
  {
    if incoming != [] {
      var rest, last := incoming[..|incoming| - 1], incoming[|incoming| - 1];
      MergeOverrides(attrs, rest);
      if Effective(last) {
        var before := Merge(attrs, rest);
        forall key
          ensures Lookup(Merge(attrs, incoming), key) ==
                  if key == last.value.key then last else Lookup(before, key)
        {
          SetAttributeLookup(before, last.value, key);
        }
        KeyMember(before, last.value.key);
        var i := FirstMatch(before, last.value.key);
        if i < |before| {
          assert Keys(before[i := last.value]) == Keys(before);
        } else {
          assert Keys(before + [last.value]) == Keys(before) + [last.value.key];
        }
      }
    }
  }

  /** A sequence of updates is one update with all that they deliver. */
  lemma {:induction false} MergeSequence(attrs: seq<Attribute>, first: seq<Option<Attribute>>,
                                         later: seq<Option<Attribute>>)
    ensures Merge(Merge(attrs, first), later) == Merge(attrs, first + later)
    decreases |later|
  {
    if later == [] {
      assert first + later == first;
    } else {
      var front := later[..|later| - 1];
      MergeSequence(attrs, first, front);
      assert (first + later)[..|first + later| - 1] == first + front;
    }
  }

  /** Copying drops the nil elements and keeps the rest in order. */
  method CloneAttributes(attrs: seq<Option<Attribute>>) returns (cloned: seq<Attribute>)
    ensures cloned == NonNil(attrs)
  {
    cloned := [];
    for i := 0 to |attrs|
      invariant cloned + NonNil(attrs[i..]) == NonNil(attrs)
    {
      assert attrs[i..][1..] == attrs[i + 1..];
      if attrs[i].Some? {
        cloned := cloned + [attrs[i].value];
      }
    }
  }
}
