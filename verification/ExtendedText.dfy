/** The descriptors of an event, and joining the items of the extended event descriptors
    into one text (ARIB STD-B10, section 6.2.7). */
module ExtendedText {

  /** A description and a value: an entry of a descriptor, or an item joined from entries. */
  datatype Item = Item(description: string, value: string)

  datatype EitShortEvent = EitShortEvent(eventName: string, text: string, languageCode: string)

  datatype EitGenre = EitGenre(contentNibbleLevel1: nat, contentNibbleLevel2: nat, userNibble1: nat, userNibble2: nat)

  /** A descriptor as decoded, by its tag. */
  datatype Descriptor =
    | ShortEvent(valid: bool, event: EitShortEvent)
    | Content(valid: bool, genres: seq<EitGenre>)
    | ExtendedEvent(valid: bool, entries: seq<Item>, text: string)
    | OtherDescriptor

  /** An entry without a description continues the value of the item before it. */
  function Push(items: seq<Item>, entry: Item): seq<Item> {
    if entry.description == "" && items != [] then
      var last := |items| - 1;
      items[last := items[last].(value := items[last].value + entry.value)]
    else items + [entry]
  }

  function Merge(entries: seq<Item>): seq<Item> {
    MergeOnto([], entries)
  }

  function MergeOnto(items: seq<Item>, entries: seq<Item>): seq<Item>
    decreases |entries|
  {
    if entries == [] then items else MergeOnto(Push(items, entries[0]), entries[1..])
  }

  // ---------- The text as a join of parts ----------

  /** What an item contributes: its value, under its description if it has one. */
  function PartOf(item: Item): string {
    if item.description == "" then item.value else item.description + "\n" + item.value
  }

  function NonEmpty(parts: seq<string>): seq<string> {
    if parts == [] then []
    else (if parts[0] == "" then [] else [parts[0]]) + NonEmpty(parts[1..])
  }

  /** The parts of a text, empty ones included. */
  function AllParts(items: seq<Item>, trailing: string): seq<string> {
    seq(|items|, i requires 0 <= i < |items| => PartOf(items[i])) + [trailing]
  }

  /** The parts with a newline between every two. */
  function Join(parts: seq<string>): string {
    if parts == [] then "" else if |parts| == 1 then parts[0] else parts[0] + "\n" + Join(parts[1..])
  }

  function TextOf(items: seq<Item>, trailing: string): string {
    Join(NonEmpty(AllParts(items, trailing)))
  }

  lemma {:induction false} JoinGrows(parts: seq<string>, part: string)
    requires forall i | 0 <= i < |parts| :: parts[i] != ""
    ensures Join(parts + [part]) == if Join(parts) == "" then part else Join(parts) + "\n" + part
    ensures Join(parts) == "" <==> parts == []
    decreases |parts|
  {
    if |parts| > 0 {
      assert (parts + [part])[1..] == parts[1..] + [part];
      JoinGrows(parts[1..], part);
    }
  }

  lemma {:induction false} NonEmptyGrows(parts: seq<string>, part: string)
    ensures NonEmpty(parts + [part]) == NonEmpty(parts) + if part == "" then [] else [part]
    ensures forall i | 0 <= i < |NonEmpty(parts)| :: NonEmpty(parts)[i] != ""
    decreases |parts|
  {
    if |parts| > 0 {
      assert (parts + [part])[1..] == parts[1..] + [part];
      NonEmptyGrows(parts[1..], part);
    }
  }

  /** A text with one part more, on a new line; an empty part adds nothing. */
  function Added(text: string, part: string): string {
    if part == "" then text else if text == "" then part else text + "\n" + part
  }

  lemma PartAppended(parts: seq<string>, part: string)
    ensures Join(NonEmpty(parts + [part])) == Added(Join(NonEmpty(parts)), part)
  {
    NonEmptyGrows(parts, part);
    JoinGrows(NonEmpty(parts), part);
    if part == "" {
      assert NonEmpty(parts) + [] == NonEmpty(parts);
    }
  }

  /** Appends to the text, with a newline if there is text already. */
  method AppendPart(out: string, part: string) returns (text: string)
    ensures text == if out == "" then part else out + "\n" + part
  {
    text := out;
    if text != "" {
      text := text + "\n";
    }
    text := text + part;
  }

  /** Appends what an item contributes. */
  method AppendItem(out: string, item: Item) returns (text: string)
    ensures text == Added(out, PartOf(item))
  {
    text := out;
    if item.description == "" {
      if item.value != "" {
        text := AppendPart(out, item.value);
      }
    } else {
      text := AppendPart(out, item.description + "\n" + item.value);
    }
  }

  /** The text is the newline-join of the parts that are not empty. */
  method FormatExtendedText(items: seq<Item>, trailing: string) returns (out: string)
    ensures out == TextOf(items, trailing)
  {
    hide Join, NonEmpty, PartOf, Added;
    out := "";
    ghost var parts: seq<string> := [];
    NoParts();
    for i := 0 to |items|
      invariant |parts| == i && forall j | 0 <= j < i :: parts[j] == PartOf(items[j])
      invariant out == Join(NonEmpty(parts))
    {
      PartAppended(parts, PartOf(items[i]));
      out := AppendItem(out, items[i]);
      parts := parts + [PartOf(items[i])];
    }
    PartAppended(parts, trailing);
    assert parts + [trailing] == AllParts(items, trailing);
    out := AppendTrailing(out, trailing);
  }

  method AppendTrailing(out: string, trailing: string) returns (text: string)
    ensures text == Added(out, trailing)
  {
    text := out;
    if trailing != "" {
      text := AppendPart(out, trailing);
    }
  }

  /** The text, item by item from the front: a description and its value on lines of their
      own, a bare value as it is, nothing for an empty item, and the free text at the end. */
  lemma TextByItem(items: seq<Item>, trailing: string)
    ensures TextOf([], trailing) == trailing
    ensures items != [] ==>
              var first, rest := items[0], TextOf(items[1..], trailing);
              var part := if first.description == "" then first.value else first.description + "\n" + first.value;
              TextOf(items, trailing) ==
              if part == "" then rest else if rest == "" then part else part + "\n" + rest
  {
    assert AllParts([], trailing) == [trailing];
    assert NonEmpty([trailing]) == if trailing == "" then [] else [trailing];
    if items != [] {
      var rest := AllParts(items[1..], trailing);
      assert AllParts(items, trailing) == [PartOf(items[0])] + rest;
      JoinFront(PartOf(items[0]), rest);
    }
  }

  lemma JoinFront(part: string, parts: seq<string>)
    ensures var rest := Join(NonEmpty(parts));
            Join(NonEmpty([part] + parts)) ==
            if part == "" then rest else if rest == "" then part else part + "\n" + rest
  {
    NonEmptyParts(parts);
    assert ([part] + parts)[1..] == parts;
    assert ([part] + NonEmpty(parts))[1..] == NonEmpty(parts);
    assert [] + NonEmpty(parts) == NonEmpty(parts);
  }

  lemma {:induction false} NonEmptyParts(parts: seq<string>)
    ensures forall i | 0 <= i < |NonEmpty(parts)| :: NonEmpty(parts)[i] != ""
    ensures Join(NonEmpty(parts)) == "" <==> NonEmpty(parts) == []
    decreases |parts|
  {
    if parts != [] {
      NonEmptyParts(parts[1..]);
    }
  }

  lemma NoParts()
    ensures Join(NonEmpty([])) == ""
  {
  }

  // ---------- Descriptors ----------

  predicate IsExtended(d: Descriptor) {
    d.ExtendedEvent? && d.valid
  }

  function EntriesOf(d: Descriptor): seq<Item> {
    if IsExtended(d) then d.entries else []
  }

  function TrailingOf(d: Descriptor): string {
    if IsExtended(d) then d.text else ""
  }

  function AllEntries(descriptors: seq<Descriptor>): seq<Item> {
    if descriptors == [] then [] else EntriesOf(descriptors[0]) + AllEntries(descriptors[1..])
  }

  function AllText(descriptors: seq<Descriptor>): string {
    if descriptors == [] then "" else TrailingOf(descriptors[0]) + AllText(descriptors[1..])
  }

  function DescriptorsText(descriptors: seq<Descriptor>): string {
    TextOf(Merge(AllEntries(descriptors)), AllText(descriptors))
  }

  lemma {:induction false} AllGrows(descriptors: seq<Descriptor>, d: Descriptor)
    ensures AllEntries(descriptors + [d]) == AllEntries(descriptors) + EntriesOf(d)
    ensures AllText(descriptors + [d]) == AllText(descriptors) + TrailingOf(d)
    decreases |descriptors|
  {
    hide EntriesOf, TrailingOf;
    if descriptors == [] {
      assert [d][1..] == [] && [] + [d] == [d];
      assert EntriesOf(d) + [] == [] + EntriesOf(d) && TrailingOf(d) + "" == "" + TrailingOf(d);
    } else {
      var first, rest := descriptors[0], descriptors[1..];
      assert (descriptors + [d])[0] == first && (descriptors + [d])[1..] == rest + [d];
      AllGrows(rest, d);
      assert EntriesOf(first) + (AllEntries(rest) + EntriesOf(d)) == AllEntries(descriptors) + EntriesOf(d);
      assert TrailingOf(first) + (AllText(rest) + TrailingOf(d)) == AllText(descriptors) + TrailingOf(d);
    }
  }

  lemma {:induction false} AllJoin(a: seq<Descriptor>, b: seq<Descriptor>)
    ensures AllEntries(a + b) == AllEntries(a) + AllEntries(b)
    ensures AllText(a + b) == AllText(a) + AllText(b)
    decreases |b|
  {
    hide AllEntries, AllText, EntriesOf, TrailingOf;
    NothingInNone();
    if b == [] {
      assert a + b == a && AllEntries(a) + [] == AllEntries(a) && AllText(a) + "" == AllText(a);
    } else {
      var most, d := b[..|b| - 1], b[|b| - 1];
      assert b == most + [d] && a + b == a + most + [d];
      AllJoin(a, most);
      AllGrows(a + most, d);
      AllGrows(most, d);
      assert AllEntries(a) + (AllEntries(most) + EntriesOf(d)) == AllEntries(a) + AllEntries(most) + EntriesOf(d);
      assert AllText(a) + (AllText(most) + TrailingOf(d)) == AllText(a) + AllText(most) + TrailingOf(d);
    }
  }

  lemma NothingInNone()
    ensures AllEntries([]) == [] && AllText([]) == ""
  {
  }

  /** A valid extended event descriptor gives all it has to the text, any other nothing. */
  lemma OneExtended(a: seq<Descriptor>, d: Descriptor, b: seq<Descriptor>)
    ensures DescriptorsText(a + [d] + b) ==
            if d.ExtendedEvent? && d.valid
            then TextOf(Merge(AllEntries(a) + d.entries + AllEntries(b)), AllText(a) + d.text + AllText(b))
            else DescriptorsText(a + b)
  {
    hide Merge, TextOf, AllEntries, AllText;
    AllJoin(a + [d], b);
    AllJoin(a, b);
    AllGrows(a, d);
    assert AllEntries(a) + [] == AllEntries(a) && AllText(a) + "" == AllText(a);
  }

  lemma {:induction false} MergeOntoSplits(items: seq<Item>, a: seq<Item>, b: seq<Item>)
    ensures MergeOnto(items, a + b) == MergeOnto(MergeOnto(items, a), b)
    decreases |a|
  {
    if a == [] {
      assert a + b == b;
    } else {
      assert (a + b)[0] == a[0] && (a + b)[1..] == a[1..] + b;
      MergeOntoSplits(Push(items, a[0]), a[1..], b);
    }
  }

  lemma MergeGrows(a: seq<Item>, e: Item)
    ensures Merge(a + [e]) == Push(Merge(a), e)
  {
    MergeOntoSplits([], a, [e]);
    MergeOntoOne(Merge(a), e);
  }

  /** Takes in one entry. */
  method PushParsedExtendedEventItem(items: seq<Item>, description: string, value: string) returns (r: seq<Item>)
    ensures r == Push(items, Item(description, value))
  {
    if description == "" && items != [] {
      var back := |items| - 1;
      return items[back := Item(items[back].description, items[back].value + value)];
    }
    return items + [Item(description, value)];
  }

  /** Gathers the items and the free text of all valid descriptors into one text. */
  method ParseExtendedEvents(descriptors: seq<Descriptor>) returns (text: string)
    ensures text == DescriptorsText(descriptors)
  {
    hide Push, MergeOnto, AllEntries, AllText, Merge, TextOf;
    var items := [];
    var trailing := "";
    NothingMerged();
    for i := 0 to |descriptors|
      invariant items == Merge(AllEntries(descriptors[..i]))
      invariant trailing == AllText(descriptors[..i])
    {
      var d := descriptors[i];
      AllGrows(descriptors[..i], d);
      assert descriptors[..i + 1] == descriptors[..i] + [d];
      ghost var before := AllEntries(descriptors[..i]);
      assert before + [] == before && trailing + "" == trailing;
      if d.ExtendedEvent? && d.valid {
        for k := 0 to |d.entries|
          invariant items == Merge(before + d.entries[..k])
        {
          assert before + d.entries[..k + 1] == before + d.entries[..k] + [d.entries[k]];
          MergeGrows(before + d.entries[..k], d.entries[k]);
          items := PushParsedExtendedEventItem(items, d.entries[k].description, d.entries[k].value);
        }
        assert d.entries[..|d.entries|] == d.entries;
        trailing := trailing + d.text;
      }
    }
    assert descriptors[..|descriptors|] == descriptors;
    text := FormatExtendedText(items, trailing);
  }

  lemma NothingMerged()
    ensures Merge(AllEntries([])) == [] && AllText([]) == ""
  {
  }

  // ---------- Re-splitting ----------

  /** `y` is `x` with one entry split in two, the rest of its value going on without a
      description. */
  ghost predicate Splits(x: seq<Item>, y: seq<Item>) {
    exists a, b, d, v1, v2 :: IsSplit(x, y, a, b, d, v1, v2)
  }

  ghost predicate IsSplit(x: seq<Item>, y: seq<Item>, a: seq<Item>, b: seq<Item>, d: string, v1: string, v2: string) {
    x == a + [Item(d, v1 + v2)] + b && y == a + [Item(d, v1), Item("", v2)] + b
  }

  lemma MergeOntoOne(items: seq<Item>, e: Item)
    ensures MergeOnto(items, [e]) == Push(items, e)
  {
    hide Push;
    assert [e][1..] == [];
  }

  lemma MergeOntoTwo(items: seq<Item>, e1: Item, e2: Item)
    ensures MergeOnto(items, [e1, e2]) == Push(Push(items, e1), e2)
  {
    hide Push;
    assert [e1, e2][1..] == [e2];
    MergeOntoOne(Push(items, e1), e2);
  }

  lemma PushInTwo(items: seq<Item>, d: string, v1: string, v2: string)
    ensures Push(Push(items, Item(d, v1)), Item("", v2)) == Push(items, Item(d, v1 + v2))
  {
    if d == "" && items != [] {
      var value := items[|items| - 1].value;
      assert value + v1 + v2 == value + (v1 + v2);
    }
  }

  /** Splitting an entry leaves the merged items as they are. */
  lemma SplitKeepsMerge(x: seq<Item>, y: seq<Item>)
    requires Splits(x, y)
    ensures Merge(x) == Merge(y)
  {
    var a, b, d, v1, v2 :| IsSplit(x, y, a, b, d, v1, v2);
    hide Push, MergeOnto;
    var one, two := [Item(d, v1 + v2)], [Item(d, v1), Item("", v2)];
    MergeOntoSplits([], a + one, b);
    MergeOntoSplits([], a, one);
    MergeOntoSplits([], a + two, b);
    MergeOntoSplits([], a, two);
    var items := MergeOnto([], a);
    MergeOntoOne(items, Item(d, v1 + v2));
    MergeOntoTwo(items, Item(d, v1), Item("", v2));
    PushInTwo(items, d, v1, v2);
  }

  /** A path of splits and unsplits from the first of `path` to its last. */
  ghost predicate SplitPath(path: seq<seq<Item>>) {
    path != [] && forall i | 0 <= i < |path| - 1 :: Splits(path[i], path[i + 1]) || Splits(path[i + 1], path[i])
  }

  lemma {:induction false} PathKeepsMerge(path: seq<seq<Item>>)
    requires SplitPath(path)
    ensures Merge(path[0]) == Merge(path[|path| - 1])
    decreases |path|
  {
    if |path| > 1 {
      var x, y := path[0], path[1];
      assert Splits(x, y) || Splits(y, x);
      if Splits(x, y) {
        SplitKeepsMerge(x, y);
      } else {
        SplitKeepsMerge(y, x);
      }
      assert SplitPath(path[1..]) by {
        forall i | 0 <= i < |path| - 2
          ensures Splits(path[1..][i], path[1..][i + 1]) || Splits(path[1..][i + 1], path[1..][i])
        {
          assert path[1..][i] == path[i + 1] && path[1..][i + 1] == path[i + 1 + 1];
        }
      }
      PathKeepsMerge(path[1..]);
    }
  }

  lemma SplitsInContext(x: seq<Item>, y: seq<Item>, e: Item)
    requires Splits(x, y)
    ensures Splits(x + [e], y + [e])
  {
    var a, b, d, v1, v2 :| IsSplit(x, y, a, b, d, v1, v2);
    assert a + [Item(d, v1 + v2)] + b + [e] == a + [Item(d, v1 + v2)] + (b + [e]);
    assert a + [Item(d, v1), Item("", v2)] + b + [e] == a + [Item(d, v1), Item("", v2)] + (b + [e]);
    assert IsSplit(x + [e], y + [e], a, b + [e], d, v1, v2);
  }

  /** Entries can be unsplit, one pair at a time, into their merged items. */
  lemma {:induction false} UnsplitToMerge(entries: seq<Item>) returns (path: seq<seq<Item>>)
    ensures SplitPath(path) && path[0] == entries && path[|path| - 1] == Merge(entries)
    decreases |entries|
  {
    if entries == [] {
      return [[]];
    }
    var most, e := entries[..|entries| - 1], entries[|entries| - 1];
    assert entries == most + [e];
    var before := UnsplitToMerge(most);
    MergeGrows(most, e);
    path := PathInContext(before, e);
    var items := Merge(most);
    if e.description == "" && items != [] {
      UnsplitLast(items, e);
      path := path + [Push(items, e)];
    }
  }

  lemma UnsplitLast(items: seq<Item>, e: Item)
    requires e.description == "" && items != []
    ensures Splits(Push(items, e), items + [e])
  {
    var last := |items| - 1;
    var d, v := items[last].description, items[last].value;
    assert items == items[..last] + [Item(d, v)];
    assert IsSplit(Push(items, e), items + [e], items[..last], [], d, v, e.value);
  }

  lemma PathInContext(path: seq<seq<Item>>, e: Item) returns (longer: seq<seq<Item>>)
    requires SplitPath(path)
    ensures SplitPath(longer) && |longer| == |path|
    ensures longer[0] == path[0] + [e] && longer[|longer| - 1] == path[|path| - 1] + [e]
  {
    longer := seq(|path|, i requires 0 <= i < |path| => path[i] + [e]);
    forall i | 0 <= i < |path| - 1 ensures Splits(longer[i], longer[i + 1]) || Splits(longer[i + 1], longer[i]) {
      if Splits(path[i], path[i + 1]) {
        SplitsInContext(path[i], path[i + 1], e);
      } else {
        SplitsInContext(path[i + 1], path[i], e);
      }
    }
  }

  /** Merging undoes splitting and nothing else: two lists of entries merge to the same
      items exactly when splits and unsplits lead from one to the other. */
  lemma MergeUndoesExactlySplitting(x: seq<Item>, y: seq<Item>)
    ensures Merge(x) == Merge(y) <==>
            exists path :: SplitPath(path) && path[0] == x && path[|path| - 1] == y
  {
    if Merge(x) == Merge(y) {
      var there := UnsplitToMerge(x);
      var back := Backward(UnsplitPath(y));
      var path := there + back[1..];
      JoinPaths(there, back);
      assert SplitPath(path) && path[0] == x && path[|path| - 1] == y;
    } else {
      forall path | SplitPath(path) && path[0] == x ensures path[|path| - 1] != y {
        PathKeepsMerge(path);
      }
    }
  }

  ghost function UnsplitPath(entries: seq<Item>): (path: seq<seq<Item>>)
    ensures SplitPath(path) && path[0] == entries && path[|path| - 1] == Merge(entries)
  {
    PathExists(entries);
    var path :| SplitPath(path) && path[0] == entries && path[|path| - 1] == Merge(entries);
    path
  }

  lemma PathExists(entries: seq<Item>)
    ensures exists path :: SplitPath(path) && path[0] == entries && path[|path| - 1] == Merge(entries)
  {
    var path := UnsplitToMerge(entries);
  }

  ghost function Backward(path: seq<seq<Item>>): (back: seq<seq<Item>>)
    requires SplitPath(path)
    ensures SplitPath(back) && |back| == |path|
    ensures back[0] == path[|path| - 1] && back[|back| - 1] == path[0]
  {
    var n := |path| - 1;
    var back := seq(|path|, i requires 0 <= i < |path| => path[n - i]);
    assert forall i | 0 <= i < |back| - 1 :: Splits(back[i], back[i + 1]) || Splits(back[i + 1], back[i]) by {
      forall i | 0 <= i < |back| - 1 ensures Splits(back[i], back[i + 1]) || Splits(back[i + 1], back[i]) {
        var j := n - i - 1;
        assert back[i + 1] == path[j] && back[i] == path[j + 1];
      }
    }
    back
  }

  lemma JoinPaths(p: seq<seq<Item>>, q: seq<seq<Item>>)
    requires SplitPath(p) && SplitPath(q) && p[|p| - 1] == q[0]
    ensures SplitPath(p + q[1..])
    ensures (p + q[1..])[0] == p[0] && (p + q[1..])[|p + q[1..]| - 1] == q[|q| - 1]
  {
    var r := p + q[1..];
    forall i | 0 <= i < |r| - 1 ensures Splits(r[i], r[i + 1]) || Splits(r[i + 1], r[i]) {
      if i < |p| - 1 {
        assert r[i] == p[i] && r[i + 1] == p[i + 1];
      } else {
        var j := i - (|p| - 1);
        assert r[i] == q[j] && r[i + 1] == q[j + 1];
      }
    }
  }

  /** However a broadcaster spreads the same entries and text over descriptors, and
      wherever it splits values, the text comes out the same. */
  lemma TextIgnoresSplitting(xs: seq<Descriptor>, ys: seq<Descriptor>, path: seq<seq<Item>>)
    requires SplitPath(path) && path[0] == AllEntries(xs) && path[|path| - 1] == AllEntries(ys)
    requires AllText(xs) == AllText(ys)
    ensures DescriptorsText(xs) == DescriptorsText(ys)
  {
    PathKeepsMerge(path);
  }
}
