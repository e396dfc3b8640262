/**
 What the canonical text depends on: the content of a value, in which a dict is a mapping and
 the order of its insertions is gone.
 */
module CanonicalContent {
  import opened Ordering
  import opened CanonicalJson
  import opened CanonicalInverse

  datatype Content =
    | NullContent
    | BoolContent(b: bool)
    | IntContent(i: int)
    | StrContent(s: string)
    | ListContent(items: seq<Content>)
    | DictContent(mapping: map<string, Content>)

  function ContentOf(v: Value): Content
    decreases v, 0
  {
    match v
    case Null => NullContent
    case Bool(b) => BoolContent(b)
    case Int(i) => IntContent(i)
    case Str(s) => StrContent(s)
    case List(items) => ListContent(ContentItems(items))
    case Dict(entries) => DictContent(Mapping(entries))
  }

  function ContentItems(items: seq<Value>): (r: seq<Content>)
    ensures |r| == |items|
    decreases items, 0
  {
    if items == [] then [] else [ContentOf(items[0])] + ContentItems(items[1..])
  }

  function Mapping(entries: Entries): map<string, Content>
    decreases entries, 0
  {
    map k | k in Keys(entries) :: ContentOf(entries[Find(entries, k)].value)
  }

  /** Dict keys are distinct at every depth, as in every Python dict. */
  ghost predicate WellFormed(v: Value) {
    match v
    case List(items) => forall i :: 0 <= i < |items| ==> WellFormed(items[i])
    case Dict(entries) =>
      Distinct(Keys(entries)) && forall i :: 0 <= i < |entries| ==> WellFormed(entries[i].value)
    case _ => true
  }

  // ----- the text determines the content

  lemma {:induction false} NormalKeepsContent(v: Value)
    ensures ContentOf(Normal(v)) == ContentOf(v)
    decreases v, 1
  {
    match v
    case List(items) => NormalItemsKeepContent(items);
    case Dict(entries) =>
      forall k | k in Keys(entries)
        ensures ContentOf(Normal(entries[Find(entries, k)].value)) == ContentOf(entries[Find(entries, k)].value)
      {
        NormalKeepsContent(entries[Find(entries, k)].value);
      }
      NormalMapping(entries);
    case _ =>
  }

  lemma NormalMapping(entries: Entries)
    requires forall k :: k in Keys(entries) ==>
               ContentOf(Normal(entries[Find(entries, k)].value)) == ContentOf(entries[Find(entries, k)].value)
    ensures Mapping(NormalEntries(entries, SortedKeys(entries))) == Mapping(entries)
  {
    hide ContentOf, Normal, NormalEntries, Keys, Find;
    var ks := SortedKeys(entries);
    var sorted := NormalEntries(entries, ks);
    KeysOfNormal(entries, ks);
    forall k | k in ks
      ensures ContentOf(sorted[Find(sorted, k)].value) == ContentOf(entries[Find(entries, k)].value)
    {
      NormalEntriesAt(entries, ks);
    }
  }

  lemma {:induction false} NormalItemsKeepContent(items: seq<Value>)
    ensures ContentItems(NormalItems(items)) == ContentItems(items)
    decreases items, 0
  {
    if items != [] {
      NormalKeepsContent(items[0]);
      NormalItemsKeepContent(items[1..]);
      assert NormalItems(items)[1..] == NormalItems(items[1..]);
    }
  }

  lemma {:induction false} KeysOfNormal(entries: Entries, ks: seq<string>)
    requires forall k :: k in ks ==> k in Keys(entries)
    ensures Keys(NormalEntries(entries, ks)) == ks
  {
    if ks != [] {
      KeysOfNormal(entries, ks[1..]);
      assert ks == [ks[0]] + ks[1..];
      var tail := NormalEntries(entries, ks[1..]);
      assert Keys(NormalEntries(entries, ks))[1..] == Keys(tail);
    }
  }

  lemma {:induction false} NormalEntriesAt(entries: Entries, ks: seq<string>)
    requires forall k :: k in ks ==> k in Keys(entries)
    ensures forall i :: 0 <= i < |ks| ==>
              NormalEntries(entries, ks)[i] == Entry(ks[i], Normal(entries[Find(entries, ks[i])].value))
  {
    if ks != [] {
      NormalEntriesAt(entries, ks[1..]);
    }
  }

  // ----- the content determines the text

  lemma {:induction false} ContentGivesText(v: Value, w: Value)
    requires WellFormed(v) && WellFormed(w) && ContentOf(v) == ContentOf(w)
    ensures Canonical(v) == Canonical(w)
    decreases v, 1
  {
    match v
    case List(items) => ContentGivesItems(items, w.items);
    case Dict(entries) =>
      SameKeysSortAlike(entries, w.entries);
      ContentGivesMembers(entries, w.entries, SortedKeys(entries));
    case _ =>
  }

  lemma {:induction false} ContentGivesItems(s: seq<Value>, t: seq<Value>)
    requires forall i :: 0 <= i < |s| ==> WellFormed(s[i])
    requires forall i :: 0 <= i < |t| ==> WellFormed(t[i])
    requires ContentItems(s) == ContentItems(t)
    ensures PrintItems(s) == PrintItems(t)
    decreases s, 0
  {
    assert |s| == |t|;
    if s != [] {
      assert ContentItems(s)[0] == ContentOf(s[0]) && ContentItems(t)[0] == ContentOf(t[0]);
      assert ContentItems(s)[1..] == ContentItems(s[1..]) && ContentItems(t)[1..] == ContentItems(t[1..]);
      ContentGivesText(s[0], t[0]);
      ContentGivesItems(s[1..], t[1..]);
    }
  }

  lemma SameKeysSortAlike(e: Entries, f: Entries)
    requires Distinct(Keys(e)) && Distinct(Keys(f)) && Mapping(e) == Mapping(f)
    ensures SortedKeys(e) == SortedKeys(f)
  {
    assert forall k :: k in Keys(e) <==> k in Mapping(e);
    assert forall k :: k in Keys(f) <==> k in Mapping(f);
    DistinctPermutation(Keys(e), Keys(f));
    SortForgetsOrder((k: string) => k, Keys(e), Keys(f));
  }

  lemma {:induction false} ContentGivesMembers(e: Entries, f: Entries, ks: seq<string>)
    requires forall i :: 0 <= i < |e| ==> WellFormed(e[i].value)
    requires forall i :: 0 <= i < |f| ==> WellFormed(f[i].value)
    requires Mapping(e) == Mapping(f)
    requires forall k :: k in ks ==> k in Keys(e) && k in Keys(f)
    ensures PrintMembers(e, ks) == PrintMembers(f, ks)
    decreases e, 0, |ks|
  {
    if ks != [] {
      var k := ks[0];
      assert Mapping(e)[k] == Mapping(f)[k];
      ContentGivesText(e[Find(e, k)].value, f[Find(f, k)].value);
      ContentGivesMembers(e, f, ks[1..]);
    }
  }

  /**
   Two values print alike exactly when they hold the same content: insertion order never shows,
   and different content never collides.
   */
  lemma SameTextIffSameContent(v: Value, w: Value)
    requires WellFormed(v) && WellFormed(w)
    ensures Canonical(v) == Canonical(w) <==> ContentOf(v) == ContentOf(w)
  {
    if Canonical(v) == Canonical(w) {
      RoundTrip(v);
      RoundTrip(w);
      NormalKeepsContent(v);
      NormalKeepsContent(w);
    }
    if ContentOf(v) == ContentOf(w) {
      ContentGivesText(v, w);
    }
  }
}
