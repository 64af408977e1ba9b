/**
 * The summary card of the web client, reduced to the rules that decide what it shows:
 * whether there is a card at all, which important terms appear (a list as it is, an
 * object by the order JavaScript's `Object.keys` gives its keys), when the transcript
 * ends in "...", and the watch link. Layout, styling and the toggle's state hook are
 * presentation; the toggle's current value is an input.
 */
module ClientVideoSummary {
  import opened Wrappers
  import opened Text
  import opened Seqs
  import ObjectIds
  import YoutubeHelper
  import SummarizationService
  import VideoSummaryPy

  type Terms = SummarizationService.Terms

  /** `SummaryData` as the client receives it; the optional fields are None when absent. */
  datatype SummaryData = SummaryData(
    videoId: string, title: string, channelTitle: Option<string>, summary: string,
    keyPoints: seq<string>, importantTerms: Terms, transcript: Option<string>)

  /** The transcript block: its text, whether it is collapsed, the toggle's label and whether "..." follows. */
  datatype TranscriptView = TranscriptView(text: string, collapsed: bool, toggleLabel: string, ellipsis: bool)

  /** What the card shows. */
  datatype View = View(
    title: string, channel: Option<string>, summary: string, keyPoints: seq<string>,
    terms: Option<seq<string>>, transcript: Option<TranscriptView>, link: string)

  const ExpandLabel: string := "Tamamını Göster"
  const CollapseLabel: string := "Kısalt"
  const EllipsisThreshold: nat := 200

  /** JavaScript truthiness of an optional string: present and not empty. */
  predicate Truthy(s: Option<string>) {
    s.Some? && s.value != ""
  }

  // ---------------------------------------------------------------------------
  // Object.keys on an object built by JSON.parse
  // ---------------------------------------------------------------------------

  /**
   * An array index: the canonical decimal form of an integer from 0 to 2^32 - 2.
   * Property enumeration lists these keys first, in ascending numeric order.
   */
  predicate IsArrayIndex(k: string) {
    ObjectIds.Canonical(k) && ObjectIds.DigitsValue(k) < 0xFFFF_FFFF
  }

  function IndexValue(k: string): nat
    requires IsArrayIndex(k)
  {
    ObjectIds.DigitsValue(k)
  }

  /** Two array indices with the same value are the same key. */
  lemma IndexValueInjective(a: string, b: string)
    requires IsArrayIndex(a) && IsArrayIndex(b) && IndexValue(a) == IndexValue(b)
    ensures a == b
  {
    ObjectIds.ValueText(a);
    ObjectIds.ValueText(b);
  }

  /** The keys of the object's members, in the order the JSON text lists them. */
  function EntryKeys(entries: seq<(string, string)>): (r: seq<string>)
    ensures |r| == |entries| && forall i | 0 <= i < |entries| :: r[i] == entries[i].0
  {
    seq(|entries|, i requires 0 <= i < |entries| => entries[i].0)
  }

  /** Each key once, at its first occurrence: a repeated member overwrites the value, not the position. */
  function FirstOccurrences(s: seq<string>): (r: seq<string>)
    decreases |s|
  {
    if s == [] then []
    else
      var d := FirstOccurrences(s[..|s| - 1]);
      if s[|s| - 1] in d then d else d + [s[|s| - 1]]
  }

  lemma {:induction false} FirstOccurrencesSpec(s: seq<string>)
    ensures Distinct(FirstOccurrences(s))
    ensures forall x :: x in FirstOccurrences(s) <==> x in s
    ensures Distinct(s) ==> FirstOccurrences(s) == s
    decreases |s|
  {
    if s != [] {
      var p := s[..|s| - 1];
      var x := s[|s| - 1];
      FirstOccurrencesSpec(p);
      assert s == p + [x];
      if Distinct(s) {
        assert Distinct(p) by {
          assert forall i | 0 <= i < |p| :: p[i] == s[i];
        }
        assert x !in p by {
          assert forall i | 0 <= i < |p| :: p[i] == s[i];
        }
      }
    }
  }

  /** The keys that are array indices, in order. */
  function IndexKeys(s: seq<string>): (r: seq<string>)
    ensures forall i | 0 <= i < |r| :: IsArrayIndex(r[i]) && r[i] in s
    ensures forall x | x in s && IsArrayIndex(x) :: x in r
    ensures |r| <= |s|
    decreases |s|
  {
    if s == [] then []
    else if IsArrayIndex(s[0]) then [s[0]] + IndexKeys(s[1..])
    else IndexKeys(s[1..])
  }

  /** The other keys, in order. */
  function NamedKeys(s: seq<string>): (r: seq<string>)
    ensures forall i | 0 <= i < |r| :: !IsArrayIndex(r[i]) && r[i] in s
    ensures forall x | x in s && !IsArrayIndex(x) :: x in r
    ensures |r| <= |s|
    decreases |s|
  {
    if s == [] then []
    else if !IsArrayIndex(s[0]) then [s[0]] + NamedKeys(s[1..])
    else NamedKeys(s[1..])
  }

  lemma {:induction false} KeysSplitDistinct(s: seq<string>)
    requires Distinct(s)
    ensures Distinct(IndexKeys(s)) && Distinct(NamedKeys(s))
    decreases |s|
  {
    if s != [] {
      assert Distinct(s[1..]) by {
        assert forall i | 0 <= i < |s| - 1 :: s[1..][i] == s[i + 1];
      }
      KeysSplitDistinct(s[1..]);
      assert s[0] !in s[1..] by {
        assert forall i | 0 <= i < |s| - 1 :: s[1..][i] == s[i + 1];
      }
    }
  }

  lemma {:induction false} NoIndexKeys(s: seq<string>)
    requires forall i | 0 <= i < |s| :: !IsArrayIndex(s[i])
    ensures NamedKeys(s) == s && IndexKeys(s) == []
    decreases |s|
  {
    if s != [] {
      NoIndexKeys(s[1..]);
      assert [s[0]] + s[1..] == s;
    }
  }

  /** Ascending by numeric value. */
  predicate AscendingIndices(s: seq<string>) {
    (forall i | 0 <= i < |s| :: IsArrayIndex(s[i]))
    && forall i, j | 0 <= i < j < |s| :: IndexValue(s[i]) < IndexValue(s[j])
  }

  /** Insert an array index into an ascending list of indices. */
  function InsertIndex(k: string, sorted: seq<string>): (r: seq<string>)
    requires IsArrayIndex(k) && forall i | 0 <= i < |sorted| :: IsArrayIndex(sorted[i])
    ensures |r| == |sorted| + 1
    ensures forall i | 0 <= i < |r| :: IsArrayIndex(r[i]) && (r[i] == k || r[i] in sorted)
    decreases |sorted|
  {
    if sorted == [] || IndexValue(k) <= IndexValue(sorted[0]) then [k] + sorted
    else [sorted[0]] + InsertIndex(k, sorted[1..])
  }

  lemma {:induction false} InsertIndexKeeps(k: string, sorted: seq<string>)
    requires IsArrayIndex(k) && forall i | 0 <= i < |sorted| :: IsArrayIndex(sorted[i])
    ensures multiset(InsertIndex(k, sorted)) == multiset(sorted) + multiset{k}
    decreases |sorted|
  {
    if sorted != [] && IndexValue(k) > IndexValue(sorted[0]) {
      InsertIndexKeeps(k, sorted[1..]);
      assert sorted == [sorted[0]] + sorted[1..];
    }
  }

  /** An index smaller than both the new key and every listed one is smaller than all of the result. */
  lemma InsertIndexBelow(k: string, sorted: seq<string>, m: nat)
    requires IsArrayIndex(k) && forall i | 0 <= i < |sorted| :: IsArrayIndex(sorted[i])
    requires m < IndexValue(k) && forall i | 0 <= i < |sorted| :: m < IndexValue(sorted[i])
    ensures forall i | 0 <= i < |sorted| + 1 :: m < IndexValue(InsertIndex(k, sorted)[i])
  {
    var r := InsertIndex(k, sorted);
    forall i | 0 <= i < |r|
      ensures m < IndexValue(r[i])
    {
      if r[i] != k {
        var j :| 0 <= j < |sorted| && sorted[j] == r[i];
      }
    }
  }

  /** An index below every element of an ascending list can go in front of it. */
  lemma ConsAscending(x: string, rest: seq<string>)
    requires IsArrayIndex(x) && AscendingIndices(rest)
    requires forall i | 0 <= i < |rest| :: IndexValue(x) < IndexValue(rest[i])
    ensures AscendingIndices([x] + rest)
  {
    var r := [x] + rest;
    assert forall i | 1 <= i < |r| :: r[i] == rest[i - 1];
  }

  lemma {:induction false} InsertIndexOrders(k: string, sorted: seq<string>)
    requires IsArrayIndex(k) && AscendingIndices(sorted) && k !in sorted
    ensures AscendingIndices(InsertIndex(k, sorted))
    decreases |sorted|
  {
    if sorted == [] {
      assert InsertIndex(k, sorted) == [k];
    } else if IndexValue(k) <= IndexValue(sorted[0]) {
      assert IndexValue(k) != IndexValue(sorted[0]) by {
        if IndexValue(k) == IndexValue(sorted[0]) {
          IndexValueInjective(k, sorted[0]);
        }
      }
      ConsAscending(k, sorted);
    } else {
      var tail := sorted[1..];
      assert AscendingIndices(tail) && k !in tail
        && forall i | 0 <= i < |tail| :: IndexValue(sorted[0]) < IndexValue(tail[i]) by {
        assert forall i | 0 <= i < |tail| :: tail[i] == sorted[i + 1];
      }
      InsertIndexOrders(k, tail);
      InsertIndexBelow(k, tail, IndexValue(sorted[0]));
      ConsAscending(sorted[0], InsertIndex(k, tail));
    }
  }

  /** The array-index keys in ascending order. */
  function SortIndices(s: seq<string>): (r: seq<string>)
    requires forall i | 0 <= i < |s| :: IsArrayIndex(s[i])
    ensures |r| == |s| && forall i | 0 <= i < |r| :: IsArrayIndex(r[i])
    decreases |s|
  {
    if s == [] then [] else InsertIndex(s[|s| - 1], SortIndices(s[..|s| - 1]))
  }

  lemma {:induction false} SortIndicesKeeps(s: seq<string>)
    requires forall i | 0 <= i < |s| :: IsArrayIndex(s[i])
    ensures multiset(SortIndices(s)) == multiset(s)
    decreases |s|
  {
    if s != [] {
      var p := s[..|s| - 1];
      SortIndicesKeeps(p);
      InsertIndexKeeps(s[|s| - 1], SortIndices(p));
      assert s == p + [s[|s| - 1]];
    }
  }

  lemma {:induction false} SortIndicesOrders(s: seq<string>)
    requires forall i | 0 <= i < |s| :: IsArrayIndex(s[i])
    requires Distinct(s)
    ensures AscendingIndices(SortIndices(s))
    decreases |s|
  {
    if s != [] {
      var p := s[..|s| - 1];
      var x := s[|s| - 1];
      assert Distinct(p) && x !in p by {
        assert forall i | 0 <= i < |p| :: p[i] == s[i];
      }
      SortIndicesOrders(p);
      SortIndicesKeeps(p);
      assert x !in SortIndices(p) by {
        assert x !in multiset(p);
      }
      InsertIndexOrders(x, SortIndices(p));
    }
  }

  lemma SortIndicesSpec(s: seq<string>)
    requires forall i | 0 <= i < |s| :: IsArrayIndex(s[i])
    requires Distinct(s)
    ensures AscendingIndices(SortIndices(s)) && multiset(SortIndices(s)) == multiset(s)
  {
    SortIndicesKeeps(s);
    SortIndicesOrders(s);
  }

  /** `Object.keys` of the object `JSON.parse` builds from these members. */
  function ObjectKeys(entries: seq<(string, string)>): seq<string> {
    var keys := FirstOccurrences(EntryKeys(entries));
    SortIndices(IndexKeys(keys)) + NamedKeys(keys)
  }

  /** The deduplicated keys are the members' keys. */
  lemma EntryKeysMembers(entries: seq<(string, string)>)
    ensures forall k :: k in FirstOccurrences(EntryKeys(entries)) <==> exists i | 0 <= i < |entries| :: entries[i].0 == k
  {
    FirstOccurrencesSpec(EntryKeys(entries));
    forall k
      ensures k in EntryKeys(entries) <==> exists i | 0 <= i < |entries| :: entries[i].0 == k
    {
      if k in EntryKeys(entries) {
        var i :| 0 <= i < |entries| && EntryKeys(entries)[i] == k;
        assert entries[i].0 == k;
      }
      if exists i | 0 <= i < |entries| :: entries[i].0 == k {
        var i :| 0 <= i < |entries| && entries[i].0 == k;
        assert EntryKeys(entries)[i] == k;
      }
    }
  }

  /** Sorting the array-index keys keeps them and orders them. */
  lemma SortedIndexKeys(keys: seq<string>)
    requires Distinct(keys)
    ensures var a := SortIndices(IndexKeys(keys));
      AscendingIndices(a) && Distinct(a) && forall k :: k in a <==> k in keys && IsArrayIndex(k)
  {
    KeysSplitDistinct(keys);
    SortIndicesSpec(IndexKeys(keys));
    var a := SortIndices(IndexKeys(keys));
    forall k
      ensures k in a <==> k in IndexKeys(keys)
    {
      assert k in a <==> k in multiset(a);
    }
  }

  /** The keys listed are exactly the members' keys, each once. */
  lemma ObjectKeysMembers(entries: seq<(string, string)>)
    ensures Distinct(ObjectKeys(entries))
    ensures forall k :: k in ObjectKeys(entries) <==> exists i | 0 <= i < |entries| :: entries[i].0 == k
    ensures ObjectKeys(entries) == [] <==> entries == []
  {
    var keys := FirstOccurrences(EntryKeys(entries));
    var a := SortIndices(IndexKeys(keys));
    var b := NamedKeys(keys);
    assert Distinct(keys) by {
      FirstOccurrencesSpec(EntryKeys(entries));
    }
    SortedIndexKeys(keys);
    assert Distinct(a + b) by {
      KeysSplitDistinct(keys);
      forall i, j | 0 <= i < |a| && 0 <= j < |b|
        ensures a[i] != b[j]
      {
        assert IsArrayIndex(a[i]);
      }
      DistinctAppend(a, b);
    }
    assert forall k :: k in a + b <==> k in keys;
    EntryKeysMembers(entries);
    if entries != [] {
      assert entries[0].0 in a + b;
    }
  }

  /** Array-index keys come first, in ascending numeric order. */
  lemma ObjectKeysIndicesFirst(entries: seq<(string, string)>)
    ensures var r := ObjectKeys(entries);
      forall i, j | 0 <= i < j < |r| && IsArrayIndex(r[j]) ::
        IsArrayIndex(r[i]) && IndexValue(r[i]) < IndexValue(r[j])
  {
    var keys := FirstOccurrences(EntryKeys(entries));
    FirstOccurrencesSpec(EntryKeys(entries));
    KeysSplitDistinct(keys);
    SortIndicesSpec(IndexKeys(keys));
    var a := SortIndices(IndexKeys(keys));
    var r := ObjectKeys(entries);
    forall i, j | 0 <= i < j < |r| && IsArrayIndex(r[j])
      ensures IsArrayIndex(r[i]) && IndexValue(r[i]) < IndexValue(r[j])
    {
      assert j < |a|;
      assert r[i] == a[i] && r[j] == a[j];
    }
  }

  /** Without array-index keys, the keys come in the order the members first appear. */
  lemma ObjectKeysInsertionOrder(entries: seq<(string, string)>)
    requires forall i | 0 <= i < |entries| :: !IsArrayIndex(entries[i].0)
    ensures ObjectKeys(entries) == FirstOccurrences(EntryKeys(entries))
    ensures Distinct(EntryKeys(entries)) ==> ObjectKeys(entries) == EntryKeys(entries)
  {
    var keys := FirstOccurrences(EntryKeys(entries));
    FirstOccurrencesSpec(EntryKeys(entries));
    forall i | 0 <= i < |keys|
      ensures !IsArrayIndex(keys[i])
    {
      assert keys[i] in EntryKeys(entries);
    }
    NoIndexKeys(keys);
    assert ObjectKeys(entries) == [] + keys;
  }

  /** An array-index key moves in front of a named key listed before it, whatever the two keys and values are. */
  lemma IndexKeyMovesFirst(named: string, v: string, index: string, w: string)
    requires !IsArrayIndex(named) && IsArrayIndex(index)
    ensures ObjectKeys([(named, v), (index, w)]) == [index, named]
  {
    var keys := [named, index];
    assert EntryKeys([(named, v), (index, w)]) == keys;
    assert named != index;
    assert FirstOccurrences(keys) == keys by {
      assert keys[..1] == [named];
      assert FirstOccurrences([named]) == [named] by {
        assert [named][..0] == [];
      }
    }
    assert keys[1..] == [index] && [index][1..] == [];
    assert IndexKeys(keys) == [index];
    assert NamedKeys(keys) == [named];
    assert SortIndices([index]) == [index] by {
      assert [index][..0] == [];
    }
  }

  // ---------------------------------------------------------------------------
  // renderImportantTerms
  // ---------------------------------------------------------------------------

  /** The terms shown: None renders no terms block. */
  function TermsToShow(t: Terms): (r: Option<seq<string>>)
    ensures r.None? <==> t.NoTerms? || (t.TermList? && t.items == []) || (t.TermObject? && t.entries == [])
    ensures r.Some? ==> r.value != []
    ensures t.TermList? && r.Some? ==> r.value == t.items
  {
    match t
    case NoTerms => None
    case TermList(items) => if items == [] then None else Some(items)
    case TermObject(entries) =>
      ObjectKeysMembers(entries);
      if ObjectKeys(entries) == [] then None else Some(ObjectKeys(entries))
  }

  /** An object's terms are its keys, each once; with no array-index key, in the order they were written. */
  lemma ObjectTermsAreKeys(entries: seq<(string, string)>)
    requires entries != []
    ensures TermsToShow(SummarizationService.TermObject(entries)).Some?
    ensures var shown := TermsToShow(SummarizationService.TermObject(entries)).value;
      Distinct(shown) && forall k :: k in shown <==> exists i | 0 <= i < |entries| :: entries[i].0 == k
    ensures (forall i | 0 <= i < |entries| :: !IsArrayIndex(entries[i].0)) && Distinct(EntryKeys(entries)) ==>
      TermsToShow(SummarizationService.TermObject(entries)) == Some(EntryKeys(entries))
  {
    ObjectKeysMembers(entries);
    if (forall i | 0 <= i < |entries| :: !IsArrayIndex(entries[i].0)) && Distinct(EntryKeys(entries)) {
      ObjectKeysInsertionOrder(entries);
    }
  }

  /** The `important_terms` object the summariser prints: each key with its note. */
  function ScriptEntries(terms: seq<VideoSummaryPy.Term>): (r: seq<(string, string)>)
    ensures |r| == |terms| && forall i | 0 <= i < |terms| :: r[i] == (terms[i].key, terms[i].note)
  {
    seq(|terms|, i requires 0 <= i < |terms| => (terms[i].key, terms[i].note))
  }

  /**
   * The summariser's terms reach the card in the order the script added them, unless one
   * of them is an array index.
   */
  lemma ScriptTermsShownInOrder(v: VideoSummaryPy.VideoDetails)
    requires var terms := VideoSummaryPy.ImportantTerms(v);
      forall i | 0 <= i < |terms| :: !IsArrayIndex(terms[i].key)
    ensures var terms := VideoSummaryPy.ImportantTerms(v);
      TermsToShow(SummarizationService.TermObject(ScriptEntries(terms)))
      == Some(seq(|terms|, i requires 0 <= i < |terms| => terms[i].key))
  {
    var terms := VideoSummaryPy.ImportantTerms(v);
    var entries := ScriptEntries(terms);
    VideoSummaryPy.ImportantTermsSize(v);
    VideoSummaryPy.ImportantTermsDistinct(v);
    var lower := VideoSummaryPy.LowerKeys(terms);
    assert Distinct(EntryKeys(entries)) by {
      forall i, j | 0 <= i < j < |entries|
        ensures EntryKeys(entries)[i] != EntryKeys(entries)[j]
      {
        assert lower[i] != lower[j];
      }
    }
    ObjectTermsAreKeys(entries);
    assert EntryKeys(entries) == seq(|terms|, i requires 0 <= i < |terms| => terms[i].key);
  }

  // ---------------------------------------------------------------------------
  // The card
  // ---------------------------------------------------------------------------

  /** The watch link under the card. */
  function WatchLink(videoId: string): string {
    YoutubeHelper.WatchPrefix + videoId
  }

  /** The link of a well-formed id passes the server's URL check and gives the id back. */
  lemma WatchLinkRoundTrip(videoId: string)
    requires YoutubeHelper.IsVideoId(videoId)
    ensures YoutubeHelper.IsValidYoutubeUrl(WatchLink(videoId))
    ensures YoutubeHelper.ExtractVideoId(WatchLink(videoId)) == Some(videoId)
  {
    YoutubeHelper.GeneratedLinksAreValid(videoId);
    YoutubeHelper.WatchLinkId(videoId);
  }

  /** The component: nothing without data, else the card. `collapsed` is the toggle's state. */
  function Render(data: Option<SummaryData>, collapsed: bool): (r: Option<View>)
    ensures r.None? <==> data.None?
    ensures r.Some? ==> r.value.keyPoints == data.value.keyPoints
    ensures r.Some? ==> (r.value.channel.Some? <==> Truthy(data.value.channelTitle))
    ensures r.Some? ==> (r.value.transcript.Some? <==> Truthy(data.value.transcript))
    ensures r.Some? && r.value.transcript.Some? ==>
      r.value.transcript.value.text == data.value.transcript.value
      && r.value.transcript.value.collapsed == collapsed
      && r.value.transcript.value.toggleLabel == (if collapsed then ExpandLabel else CollapseLabel)
    ensures r.Some? ==>
      && |r.value.link| == |YoutubeHelper.WatchPrefix| + |data.value.videoId|
      && r.value.link[..|YoutubeHelper.WatchPrefix|] == YoutubeHelper.WatchPrefix
      && r.value.link[|YoutubeHelper.WatchPrefix|..] == data.value.videoId
  {
    match data
    case None => None
    case Some(d) =>
      var link := WatchLink(d.videoId);
      assert link[..|YoutubeHelper.WatchPrefix|] == YoutubeHelper.WatchPrefix;
      Some(View(
        d.title,
        if Truthy(d.channelTitle) then d.channelTitle else None,
        d.summary,
        d.keyPoints,
        TermsToShow(d.importantTerms),
        if Truthy(d.transcript) then
          Some(TranscriptView(d.transcript.value, collapsed, if collapsed then ExpandLabel else CollapseLabel,
                              collapsed && Utf16Length(d.transcript.value) > EllipsisThreshold))
        else None,
        link))
  }

  /** "..." follows the transcript exactly when it is collapsed and longer than 200 UTF-16 units. */
  lemma EllipsisRule(d: SummaryData, collapsed: bool)
    ensures var v := Render(Some(d), collapsed).value;
      (v.transcript.Some? && v.transcript.value.ellipsis)
      <==> collapsed && d.transcript.Some? && Utf16Length(d.transcript.value) > EllipsisThreshold
  {
    if d.transcript.Some? && Utf16Length(d.transcript.value) > EllipsisThreshold {
      assert d.transcript.value != "";
    }
  }

  /** The terms block of the card is the normalisation of `importantTerms`. */
  lemma CardTerms(d: SummaryData, collapsed: bool)
    ensures var v := Render(Some(d), collapsed).value;
      (v.terms.None? <==>
        (d.importantTerms.NoTerms?
         || (d.importantTerms.TermList? && d.importantTerms.items == [])
         || (d.importantTerms.TermObject? && d.importantTerms.entries == [])))
      && (d.importantTerms.TermList? && v.terms.Some? ==> v.terms.value == d.importantTerms.items)
  {
  }
}
