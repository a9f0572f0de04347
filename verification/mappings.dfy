/** The mapping-text parser of `processImagesWithVideoMappings`
    (custom.js:367-379) and the plain JavaScript object it fills. */
module Mappings {
  import opened Wrappers
  import opened Text

  datatype Entry = Entry(key: string, value: string)

  /** A plain object `{}` used as a dictionary from keys to mapping values.
      `Object.keys` lists the array-index keys first, in ascending numeric
      order, and then every other key in the order it was first assigned; the
      two runs are kept apart so that this order is the table's own order. */
  datatype Table = Table(indices: seq<Entry>, names: seq<Entry>)

  /** Assigning a string to this key reaches the inherited prototype setter,
      which ignores it: no own property is created. */
  const ProtoKey: string := "__proto__"

  /** Largest array index, 2^32 - 2. */
  const MaxArrayIndex: nat := 0xFFFF_FFFE

  function DigitValue(c: char): nat {
    if IsDigit(c) then (c as int) - ('0' as int) else 0
  }

  /** The decimal value of a digit string. */
  function NumericValue(s: string): nat
    decreases |s|
  {
    if |s| == 0 then 0 else 10 * NumericValue(s[..|s| - 1]) + DigitValue(s[|s| - 1])
  }

  /** A canonical decimal numeral, without leading zeros, below 2^32 - 1. */
  predicate IsArrayIndex(k: string) {
    && |k| > 0
    && (forall i :: 0 <= i < |k| ==> IsDigit(k[i]))
    && (k[0] != '0' || |k| == 1)
    && NumericValue(k) <= MaxArrayIndex
  }

  function KeysOf(es: seq<Entry>): (ks: seq<string>)
    ensures |ks| == |es|
    decreases |es|
  {
    if |es| == 0 then [] else [es[0].key] + KeysOf(es[1..])
  }

  predicate NoDuplicates(ks: seq<string>) {
    forall i, j :: 0 <= i < j < |ks| ==> ks[i] != ks[j]
  }

  predicate AscendingIndices(ks: seq<string>) {
    forall i, j :: 0 <= i < j < |ks| ==> NumericValue(ks[i]) <= NumericValue(ks[j])
  }

  /** The array-index run: index keys only, distinct, in ascending numeric order. */
  predicate IndexRun(es: seq<Entry>) {
    var ks := KeysOf(es);
    && NoDuplicates(ks)
    && (forall x :: x in ks ==> IsArrayIndex(x))
    && AscendingIndices(ks)
  }

  /** The insertion-ordered run: distinct keys that are neither array indices
      nor the prototype key. */
  predicate NameRun(es: seq<Entry>) {
    var ks := KeysOf(es);
    && NoDuplicates(ks)
    && (forall x :: x in ks ==> !IsArrayIndex(x) && x != ProtoKey)
  }

  predicate Valid(t: Table) {
    IndexRun(t.indices) && NameRun(t.names)
  }

  /** The object literal `{}`. */
  const Empty: Table := Table([], [])

  /** `Object.keys`. */
  function Keys(t: Table): seq<string> {
    KeysOf(t.indices) + KeysOf(t.names)
  }

  /** The value of the first entry whose key is `k`. */
  function Find(es: seq<Entry>, k: string): (r: Option<string>)
    ensures r.None? <==> k !in KeysOf(es)
    ensures r.Some? ==> Entry(k, r.value) in es
    decreases |es|
  {
    if |es| == 0 then None
    else if es[0].key == k then Some(es[0].value)
    else Find(es[1..], k)
  }

  /** Property read `t[k]`, absent keys giving `None`. */
  function Get(t: Table, k: string): Option<string> {
    if k in KeysOf(t.indices) then Find(t.indices, k) else Find(t.names, k)
  }

  /** Assignment into the insertion-ordered run: an existing key keeps its
      position and takes the new value; a new key goes last. */
  function Upsert(es: seq<Entry>, k: string, v: string): seq<Entry>
    decreases |es|
  {
    if |es| == 0 then [Entry(k, v)]
    else if es[0].key == k then [Entry(k, v)] + es[1..]
    else [es[0]] + Upsert(es[1..], k, v)
  }

  lemma {:induction false} UpsertKeys(es: seq<Entry>, k: string, v: string)
    ensures k in KeysOf(es) ==> KeysOf(Upsert(es, k, v)) == KeysOf(es)
    ensures k !in KeysOf(es) ==> KeysOf(Upsert(es, k, v)) == KeysOf(es) + [k]
    decreases |es|
  {
    if |es| > 0 {
      var r := Upsert(es, k, v);
      if es[0].key == k {
        assert r[1..] == es[1..];
      } else {
        UpsertKeys(es[1..], k, v);
        assert r[1..] == Upsert(es[1..], k, v);
      }
    }
  }

  lemma {:induction false} UpsertFind(es: seq<Entry>, k: string, v: string, k': string)
    ensures Find(Upsert(es, k, v), k') == if k' == k then Some(v) else Find(es, k')
    decreases |es|
  {
    if |es| > 0 {
      var r := Upsert(es, k, v);
      if es[0].key == k {
        assert r[1..] == es[1..];
      } else {
        UpsertFind(es[1..], k, v, k');
        assert r[1..] == Upsert(es[1..], k, v);
      }
    }
  }

  /** Assignment into the array-index run: an existing key takes the new value
      in place; a new key is inserted before the first larger index. */
  function InsertIndex(es: seq<Entry>, k: string, v: string): seq<Entry>
    decreases |es|
  {
    if |es| == 0 then [Entry(k, v)]
    else if es[0].key == k then [Entry(k, v)] + es[1..]
    else if NumericValue(k) < NumericValue(es[0].key) then [Entry(k, v)] + es
    else [es[0]] + InsertIndex(es[1..], k, v)
  }

  lemma {:induction false} InsertIndexFind(es: seq<Entry>, k: string, v: string, k': string)
    ensures Find(InsertIndex(es, k, v), k') == if k' == k then Some(v) else Find(es, k')
    decreases |es|
  {
    if |es| > 0 {
      var r := InsertIndex(es, k, v);
      if es[0].key == k {
        assert r[1..] == es[1..];
      } else if NumericValue(k) < NumericValue(es[0].key) {
        assert r[1..] == es;
      } else {
        InsertIndexFind(es[1..], k, v, k');
        assert r[1..] == InsertIndex(es[1..], k, v);
      }
    }
  }

  lemma IndexRunTail(es: seq<Entry>)
    requires IndexRun(es)
    requires |es| > 0
    ensures IndexRun(es[1..])
    ensures es[0].key !in KeysOf(es[1..])
    ensures forall x :: x in KeysOf(es[1..]) ==> NumericValue(es[0].key) <= NumericValue(x)
  {
    var ks := KeysOf(es);
    assert KeysOf(es[1..]) == ks[1..];
    assert ks[0] == es[0].key;
    forall x | x in ks[1..] ensures x != ks[0] && NumericValue(ks[0]) <= NumericValue(x) {
      var i :| 0 <= i < |ks| - 1 && ks[1..][i] == x;
      assert x == ks[i + 1];
    }
    assert forall i :: 0 <= i < |ks| - 1 ==> ks[1..][i] == ks[i + 1];
  }

  lemma {:induction false} InsertIndexMembers(es: seq<Entry>, k: string, v: string)
    ensures forall x :: x in KeysOf(InsertIndex(es, k, v)) <==> x in KeysOf(es) || x == k
    decreases |es|
  {
    if |es| > 0 {
      var r := InsertIndex(es, k, v);
      if es[0].key == k {
        assert r[1..] == es[1..];
      } else if NumericValue(k) < NumericValue(es[0].key) {
        assert r[1..] == es;
      } else {
        InsertIndexMembers(es[1..], k, v);
        assert r[1..] == InsertIndex(es[1..], k, v);
      }
    }
  }

  lemma {:induction false} InsertIndexPresent(es: seq<Entry>, k: string, v: string)
    requires IndexRun(es)
    ensures k in KeysOf(es) ==> KeysOf(InsertIndex(es, k, v)) == KeysOf(es)
    decreases |es|
  {
    var r := InsertIndex(es, k, v);
    if k !in KeysOf(es) {
    } else if es[0].key == k {
      assert r[1..] == es[1..];
    } else {
      IndexRunTail(es);
      assert k in KeysOf(es[1..]);
      InsertIndexPresent(es[1..], k, v);
      assert r[1..] == InsertIndex(es[1..], k, v);
    }
  }

  /** An index key no larger than, and distinct from, every key of a run can
      be put in front of it. */
  lemma IndexRunCons(e: Entry, es: seq<Entry>)
    requires IndexRun(es) && IsArrayIndex(e.key)
    requires e.key !in KeysOf(es)
    requires forall x :: x in KeysOf(es) ==> NumericValue(e.key) <= NumericValue(x)
    ensures IndexRun([e] + es)
  {
    var ks := KeysOf(es);
    var rs := KeysOf([e] + es);
    assert ([e] + es)[1..] == es;
    assert rs == [e.key] + ks;
    assert forall i :: 1 <= i < |rs| ==> rs[i] == ks[i - 1];
  }

  lemma {:induction false} InsertIndexRun(es: seq<Entry>, k: string, v: string)
    requires IndexRun(es)
    requires IsArrayIndex(k)
    ensures IndexRun(InsertIndex(es, k, v))
    decreases |es|
  {
    var r := InsertIndex(es, k, v);
    if |es| == 0 {
    } else if es[0].key == k {
      assert r[1..] == es[1..];
      assert KeysOf(r) == KeysOf(es);
    } else if NumericValue(k) < NumericValue(es[0].key) {
      var ks := KeysOf(es);
      forall x | x in ks ensures x != k && NumericValue(k) <= NumericValue(x) {
        var i :| 0 <= i < |ks| && ks[i] == x;
        assert NumericValue(ks[0]) <= NumericValue(ks[i]);
      }
      IndexRunCons(Entry(k, v), es);
    } else {
      IndexRunTail(es);
      InsertIndexRun(es[1..], k, v);
      InsertIndexMembers(es[1..], k, v);
      IndexRunCons(es[0], InsertIndex(es[1..], k, v));
    }
  }

  /** Property assignment `t[k] = v`. */
  function Put(t: Table, k: string, v: string): (r: Table)
    requires Valid(t)
    ensures Valid(r)
  {
    if k == ProtoKey then
      t
    else if IsArrayIndex(k) then
      InsertIndexRun(t.indices, k, v);
      t.(indices := InsertIndex(t.indices, k, v))
    else
      UpsertKeys(t.names, k, v);
      t.(names := Upsert(t.names, k, v))
  }

  /** After `t[k] = v` the key reads `v`, unless it is the prototype key,
      and every other key reads as before. */
  lemma PutGet(t: Table, k: string, v: string, k': string)
    requires Valid(t)
    ensures Get(Put(t, k, v), k') == if k' == k && k != ProtoKey then Some(v) else Get(t, k')
  {
    if k != ProtoKey {
      if IsArrayIndex(k) {
        InsertIndexMembers(t.indices, k, v);
        InsertIndexFind(t.indices, k, v, k');
      } else {
        UpsertKeys(t.names, k, v);
        UpsertFind(t.names, k, v, k');
      }
    }
  }

  /** How `t[k] = v` moves `Object.keys`: a listed key keeps its place, a new
      non-index key goes last, a new index key joins the index run, and the
      prototype key is never listed. Only the run the key belongs to changes. */
  lemma PutKeys(t: Table, k: string, v: string)
    requires Valid(t)
    ensures var r := Put(t, k, v);
      && (k == ProtoKey ==> r == t)
      && (k in Keys(t) ==> Keys(r) == Keys(t))
      && (k !in Keys(t) && k != ProtoKey && !IsArrayIndex(k) ==> Keys(r) == Keys(t) + [k])
      && (forall x :: x in Keys(r) <==> x in Keys(t) || (x == k && k != ProtoKey))
      && (!IsArrayIndex(k) ==> r.indices == t.indices)
      && (IsArrayIndex(k) ==> r.names == t.names)
  {
    if k != ProtoKey {
      if IsArrayIndex(k) {
        InsertIndexMembers(t.indices, k, v);
        InsertIndexPresent(t.indices, k, v);
        if k in Keys(t) {
          assert k in KeysOf(t.indices);
        }
      } else {
        UpsertKeys(t.names, k, v);
        if k in Keys(t) {
          assert k in KeysOf(t.names);
        }
      }
    }
  }

  /** A key is readable exactly when `Object.keys` lists it. */
  lemma GetListed(t: Table, k: string)
    requires Valid(t)
    ensures Get(t, k).Some? <==> k in Keys(t)
  {
  }

  /** Position of the first `|` in `s`, or `|s|` when there is none. */
  function BarIndex(s: string): (n: nat)
    ensures n <= |s|
    ensures '|' !in s[..n]
    ensures n < |s| ==> s[n] == '|'
    decreases |s|
  {
    if |s| == 0 || s[0] == '|' then 0
    else
      var n := 1 + BarIndex(s[1..]);
      assert s[..n] == [s[0]] + s[1..][..n - 1];
      n
  }

  /** The pieces of `split('|')`, read through the first bar. */
  lemma SplitAtBar(s: string)
    ensures var i := BarIndex(s);
      && Split(s, '|')[0] == s[..i]
      && (|Split(s, '|')| >= 2 <==> i < |s|)
      && (i < |s| ==> Split(s, '|')[1..] == Split(s[i + 1..], '|'))
  {
    var i := BarIndex(s);
    if i < |s| {
      var w, rest := s[..i], s[i + 1..];
      assert s == w + ['|'] + rest by {
        assert s[i] == '|';
      }
      SplitAtFirstBar(w, rest);
    } else {
      assert s[..i] == s;
      SplitFree(s, '|');
    }
  }

  lemma SplitAtFirstBar(w: string, rest: string)
    requires '|' !in w
    ensures var r := Split(w + ['|'] + rest, '|');
      r[0] == w && |r| >= 2 && r[1..] == Split(rest, '|')
  {
    SplitPrefix(w, rest, '|');
    var r := [w] + Split(rest, '|');
    assert r[1..] == Split(rest, '|');
  }

  lemma SegmentPieces(segment: string)
    ensures var pieces := Split(segment, '|'); var i := BarIndex(segment);
      && pieces[0] == segment[..i]
      && (|pieces| >= 2 <==> i < |segment|)
      && (i < |segment| ==> var after := segment[i + 1..]; pieces[1] == after[..BarIndex(after)])
  {
    SplitAtBar(segment);
    var i := BarIndex(segment);
    if i < |segment| {
      SplitAtBar(segment[i + 1..]);
    }
  }

  /** One comma-separated segment `label|value`. It contributes an entry only
      when the text before the first bar and the text between the first and
      the second bar (or the end) are both non-empty before trimming; text
      after a second bar is ignored. The key is trimmed and lower-cased, the
      value trimmed. */
  function SegmentEntry(segment: string): (r: Option<Entry>)
    ensures var i := BarIndex(segment);
      r.Some? <==> 0 < i < |segment| && BarIndex(segment[i + 1..]) > 0
    ensures var i := BarIndex(segment);
      r.Some? ==> (
        && i < |segment|
        && var after := segment[i + 1..];
           r.value == Entry(Lower(Trim(segment[..i])), Trim(after[..BarIndex(after)])))
  {
    var pieces := Split(segment, '|');
    SegmentPieces(segment);
    var altTag := pieces[0];
    if |pieces| >= 2 && |altTag| > 0 && |pieces[1]| > 0 then
      Some(Entry(Lower(Trim(altTag)), Trim(pieces[1])))
    else
      None
  }

  lemma {:induction false} BarIndexAfter(tag: string, rest: string)
    requires '|' !in tag
    ensures BarIndex(tag + ['|'] + rest) == |tag|
    ensures BarIndex(tag) == |tag|
    decreases |tag|
  {
    if |tag| > 0 {
      assert (tag + ['|'] + rest)[1..] == tag[1..] + ['|'] + rest;
      BarIndexAfter(tag[1..], rest);
    }
  }

  /** `label|value`: trimmed and lower-cased label, trimmed value;
      surrounding whitespace is dropped only after the emptiness test. */
  lemma SegmentWithValue(tag: string, value: string)
    requires '|' !in tag && '|' !in value
    requires |tag| > 0 && |value| > 0
    ensures SegmentEntry(tag + ['|'] + value) == Some(Entry(Lower(Trim(tag)), Trim(value)))
  {
    var s := tag + ['|'] + value;
    BarIndexAfter(tag, value);
    BarIndexAfter(value, []);
    var i := BarIndex(s);
    assert i == |tag|;
    var after := s[i + 1..];
    assert after == value;
    assert after[..BarIndex(after)] == value;
    assert s[..i] == tag;
    var r := SegmentEntry(s);
    assert r.Some?;
  }

  /** `label|value|extra...`: pieces after the second bar are ignored. */
  lemma SegmentWithExtraPieces(tag: string, value: string, extra: string)
    requires '|' !in tag && '|' !in value
    requires |tag| > 0 && |value| > 0
    ensures SegmentEntry(tag + ['|'] + value + ['|'] + extra) == Some(Entry(Lower(Trim(tag)), Trim(value)))
  {
    var after := value + ['|'] + extra;
    var s := tag + ['|'] + after;
    assert s == tag + ['|'] + value + ['|'] + extra;
    BarIndexAfter(tag, after);
    assert s[|tag| + 1..] == after;
    assert s[..|tag|] == tag;
    BarIndexAfter(value, extra);
    assert after[..|value|] == value;
  }

  /** A segment without a bar contributes nothing. */
  lemma SegmentWithoutBar(segment: string)
    requires '|' !in segment
    ensures SegmentEntry(segment) == None
  {
    BarIndexAfter(segment, []);
  }

  /** An empty tag (`|value`) contributes nothing. */
  lemma SegmentEmptyLabel(rest: string)
    ensures SegmentEntry(['|'] + rest) == None
  {
    assert BarIndex(['|'] + rest) == 0;
  }

  /** An empty value (`tag|` or `tag||...`) contributes nothing. */
  lemma SegmentEmptyValue(tag: string, rest: string)
    requires '|' !in tag
    ensures SegmentEntry(tag + ['|']) == None
    ensures SegmentEntry(tag + ['|', '|'] + rest) == None
  {
    BarIndexAfter(tag, []);
    var s := tag + ['|', '|'] + rest;
    assert s == tag + ['|'] + (['|'] + rest);
    BarIndexAfter(tag, ['|'] + rest);
    assert s[|tag| + 1..] == ['|'] + rest;
  }

  /** A blank tag, one or more whitespace characters, passes the emptiness
      test and yields the empty key. */
  lemma SegmentBlankLabel(blank: string, value: string)
    requires |blank| > 0 && forall i :: 0 <= i < |blank| ==> IsSpace(blank[i])
    requires '|' !in value && |value| > 0
    ensures SegmentEntry(blank + ['|'] + value) == Some(Entry([], Trim(value)))
  {
    assert '|' !in blank by {
      assert !IsSpace('|');
    }
    assert Trim(blank) == [] by {
      assert LeadingSpaces(blank) == |blank|;
    }
    SegmentWithValue(blank, value);
  }

  /** Folds one segment into the table. */
  function AddSegment(t: Table, segment: string): (r: Table)
    requires Valid(t)
    ensures Valid(r)
  {
    match SegmentEntry(segment)
    case None => t
    case Some(e) => Put(t, e.key, e.value)
  }

  /** Folds the segments into an empty table, first to last. */
  function ParseSegments(segments: seq<string>): (t: Table)
    ensures Valid(t)
    decreases |segments|
  {
    if |segments| == 0 then Empty
    else AddSegment(ParseSegments(segments[..|segments| - 1]), segments[|segments| - 1])
  }

  /** The table built from the mapping text `label|value,label|value,...`. */
  function Parse(text: string): (t: Table)
    ensures Valid(t)
  {
    ParseSegments(Split(text, ','))
  }

  /** The entries the segments contribute, in text order, duplicates included. */
  function Contributions(segments: seq<string>): seq<Entry>
    decreases |segments|
  {
    if |segments| == 0 then []
    else
      var prefix := Contributions(segments[..|segments| - 1]);
      match SegmentEntry(segments[|segments| - 1])
      case None => prefix
      case Some(e) => prefix + [e]
  }

  /** The value of the last entry with key `k`. */
  function LastValue(es: seq<Entry>, k: string): (r: Option<string>)
    ensures r.Some? <==> k in KeysOf(es)
    decreases |es|
  {
    if |es| == 0 then None
    else
      assert KeysOf(es) == KeysOf(es[..|es| - 1]) + [es[|es| - 1].key] by {
        KeysOfAppend(es[..|es| - 1], es[|es| - 1]);
        assert es[..|es| - 1] + [es[|es| - 1]] == es;
      }
      if es[|es| - 1].key == k then Some(es[|es| - 1].value) else LastValue(es[..|es| - 1], k)
  }

  lemma {:induction false} KeysOfAppend(es: seq<Entry>, e: Entry)
    ensures KeysOf(es + [e]) == KeysOf(es) + [e.key]
    decreases |es|
  {
    if |es| > 0 {
      assert (es + [e])[1..] == es[1..] + [e];
      KeysOfAppend(es[1..], e);
    }
  }

  /** Reading a key of the parsed table gives the value of the LAST segment
      that names it; the prototype key is never stored. */
  lemma {:induction false} ParseSegmentsGet(segments: seq<string>, k: string)
    ensures Get(ParseSegments(segments), k) ==
      if k == ProtoKey then None else LastValue(Contributions(segments), k)
    decreases |segments|
  {
    if |segments| > 0 {
      var prefix := segments[..|segments| - 1];
      ParseSegmentsGet(prefix, k);
      var es := Contributions(prefix);
      match SegmentEntry(segments[|segments| - 1])
      case None =>
      case Some(e) =>
        PutGet(ParseSegments(prefix), e.key, e.value, k);
        assert (es + [e])[..|es|] == es;
    }
  }

  /** The parsed table lists exactly the keys some segment contributes,
      except the prototype key. */
  lemma ParseSegmentsKeys(segments: seq<string>, k: string)
    ensures k in Keys(ParseSegments(segments)) <==>
      k != ProtoKey && k in KeysOf(Contributions(segments))
  {
    ParseSegmentsGet(segments, k);
    GetListed(ParseSegments(segments), k);
  }

  /** The insertion-ordered keys a key sequence produces: first occurrences of
      the keys that are neither array indices nor the prototype key. */
  function NamesInOrder(ks: seq<string>): seq<string>
    decreases |ks|
  {
    if |ks| == 0 then []
    else
      var prefix := NamesInOrder(ks[..|ks| - 1]);
      var k := ks[|ks| - 1];
      if IsArrayIndex(k) || k == ProtoKey || k in ks[..|ks| - 1] then prefix else prefix + [k]
  }

  /** How one assignment moves the insertion-ordered keys. */
  lemma PutNames(t: Table, k: string, v: string)
    requires Valid(t)
    ensures KeysOf(Put(t, k, v).names) ==
      if IsArrayIndex(k) || k == ProtoKey || k in Keys(t) then KeysOf(t.names) else KeysOf(t.names) + [k]
  {
    if !IsArrayIndex(k) && k != ProtoKey {
      UpsertKeys(t.names, k, v);
      assert k in Keys(t) <==> k in KeysOf(t.names);
    }
  }

  /** The non-index keys of the parsed table keep the position of their first
      appearance in the text, whatever later duplicates do to their values. */
  lemma {:induction false} ParseSegmentsNameOrder(segments: seq<string>)
    ensures KeysOf(ParseSegments(segments).names) == NamesInOrder(KeysOf(Contributions(segments)))
    decreases |segments|
  {
    if |segments| > 0 {
      var prefix := segments[..|segments| - 1];
      ParseSegmentsNameOrder(prefix);
      var t := ParseSegments(prefix);
      var es := Contributions(prefix);
      match SegmentEntry(segments[|segments| - 1])
      case None =>
      case Some(e) =>
        KeysOfAppend(es, e);
        var ks := KeysOf(es) + [e.key];
        assert ks[..|ks| - 1] == KeysOf(es);
        ParseSegmentsKeys(prefix, e.key);
        PutNames(t, e.key, e.value);
    }
  }

  /** `split(',')` of a text extended by one comma-free segment. */
  lemma SplitSnoc(a: string, b: string, d: char)
    requires d !in b
    ensures Split(a + [d] + b, d) == Split(a, d) + [b]
  {
    var ps := Split(a, d) + [b];
    SplitShape(a, d);
    JoinSnoc(Split(a, d), b, d);
    SplitJoin(ps, d);
  }

  lemma {:induction false} JoinSnoc(ps: seq<string>, b: string, d: char)
    requires |ps| >= 1
    ensures Join(ps + [b], d) == Join(ps, d) + [d] + b
    decreases |ps|
  {
    if |ps| > 1 {
      assert (ps + [b])[1..] == ps[1..] + [b];
      JoinSnoc(ps[1..], b, d);
    }
  }

  /** Appending `,segment` to the mapping text folds that segment into the
      table already built: the parse is a left fold over the segments. */
  lemma ParseAppend(text: string, segment: string)
    requires ',' !in segment
    ensures Parse(text + [','] + segment) == AddSegment(Parse(text), segment)
  {
    SplitSnoc(text, segment, ',');
    var ps := Split(text, ',') + [segment];
    assert ps[..|ps| - 1] == Split(text, ',');
  }

  /** A later duplicate key overwrites the value and keeps the position. */
  lemma LaterDuplicateWins(text: string, segment: string, e: Entry)
    requires ',' !in segment
    requires SegmentEntry(segment) == Some(e)
    requires e.key in Keys(Parse(text))
    ensures Get(Parse(text + [','] + segment), e.key) == Some(e.value)
    ensures Keys(Parse(text + [','] + segment)) == Keys(Parse(text))
  {
    ParseAppend(text, segment);
    PutGet(Parse(text), e.key, e.value, e.key);
    PutKeys(Parse(text), e.key, e.value);
  }

  /** Empty mapping text gives the empty table. */
  lemma ParseEmpty()
    ensures Parse([]) == Empty
  {
    assert Split([], ',') == [[]];
    SegmentWithoutBar([]);
  }

  /** A comma-free text is a single segment. */
  lemma ParseSingle(segment: string)
    requires ',' !in segment
    ensures Parse(segment) == AddSegment(Empty, segment)
  {
    SplitFree(segment, ',');
  }

  /** A label that survives parsing unchanged as an insertion-ordered key. */
  predicate PlainLabel(k: string) {
    && |k| > 0 && '|' !in k && ',' !in k
    && Trim(k) == k && Lower(k) == k
    && !IsArrayIndex(k) && k != ProtoKey
  }

  /** A value that survives parsing unchanged. */
  predicate PlainValue(v: string) {
    |v| > 0 && '|' !in v && ',' !in v && Trim(v) == v
  }

  function Pair(k: string, v: string): string {
    k + ['|'] + v
  }

  lemma PairEntry(k: string, v: string)
    requires |k| > 0 && '|' !in k && ',' !in k && Trim(k) == k
    requires PlainValue(v)
    ensures ',' !in Pair(k, v)
    ensures SegmentEntry(Pair(k, v)) == Some(Entry(Lower(k), v))
  {
    assert ',' !in Pair(k, v) by {
      assert forall i :: 0 <= i < |Pair(k, v)| ==> Pair(k, v)[i] == if i < |k| then k[i] else if i == |k| then '|' else v[i - |k| - 1];
    }
    assert SegmentEntry(Pair(k, v)) == Some(Entry(Lower(Trim(k)), Trim(v))) by {
      SegmentWithValue(k, v);
    }
  }

  /** A single plain pair parses to a one-key table. */
  lemma ParseOnePair(a: string, x: string)
    requires PlainLabel(a) && PlainValue(x)
    ensures Parse(Pair(a, x)) == Put(Empty, a, x)
    ensures Keys(Parse(Pair(a, x))) == [a]
    ensures Parse(Pair(a, x)).indices == []
  {
    PairEntry(a, x);
    ParseSingle(Pair(a, x));
    PutKeys(Empty, a, x);
    assert Keys(Empty) == [];
  }

  /** Appending `,label|value` with a new plain label lists the label last,
      gives it the value and leaves every other key's value alone. */
  lemma ParseAppendNewPair(text: string, b: string, y: string, k: string)
    requires PlainLabel(b) && PlainValue(y)
    requires b !in Keys(Parse(text))
    ensures var t := Parse(text + [','] + Pair(b, y));
      && Keys(t) == Keys(Parse(text)) + [b]
      && Get(t, k) == if k == b then Some(y) else Get(Parse(text), k)
  {
    var t1 := Parse(text);
    assert Parse(text + [','] + Pair(b, y)) == Put(t1, b, y) by {
      PairEntry(b, y);
      ParseAppend(text, Pair(b, y));
    }
    PutKeys(t1, b, y);
    PutGet(t1, b, y, k);
  }

  /** `a|1,b|2`: two distinct labels are listed in text order with their values. */
  lemma ParseTwoPairs(a: string, x: string, b: string, y: string)
    requires PlainLabel(a) && PlainLabel(b) && a != b
    requires PlainValue(x) && PlainValue(y)
    ensures var t := Parse(Pair(a, x) + [','] + Pair(b, y));
      Keys(t) == [a, b] && Get(t, a) == Some(x) && Get(t, b) == Some(y)
  {
    ParseOnePair(a, x);
    PutGet(Empty, a, x, a);
    ParseAppendNewPair(Pair(a, x), b, y, a);
    ParseAppendNewPair(Pair(a, x), b, y, b);
  }

  /** `a|1,a|2`: the later value wins and the label is listed once. */
  lemma ParseDuplicatePair(a: string, x: string, y: string)
    requires PlainLabel(a)
    requires PlainValue(x) && PlainValue(y)
    ensures var t := Parse(Pair(a, x) + [','] + Pair(a, y));
      Keys(t) == [a] && Get(t, a) == Some(y)
  {
    ParseOnePair(a, x);
    PairEntry(a, y);
    ParseAppend(Pair(a, x), Pair(a, y));
    PutKeys(Parse(Pair(a, x)), a, y);
    PutGet(Parse(Pair(a, x)), a, y, a);
  }

  /** Appending `,n|value` with an integer-like label to a text without index
      keys lists `n` before every other key. */
  lemma ParseAppendIndexPair(text: string, n: string, y: string)
    requires IsArrayIndex(n) && PlainValue(y)
    requires Parse(text).indices == []
    ensures var t := Parse(text + [','] + Pair(n, y));
      Keys(t) == [n] + Keys(Parse(text)) && Get(t, n) == Some(y)
  {
    var t1 := Parse(text);
    assert Parse(text + [','] + Pair(n, y)) == Put(t1, n, y) by {
      IndexLabelPlain(n);
      PairEntry(n, y);
      ParseAppend(text, Pair(n, y));
    }
    PutFirstIndex(t1, n, y);
  }

  /** The first index key assigned into a table goes before every other key. */
  lemma PutFirstIndex(t: Table, n: string, y: string)
    requires Valid(t) && t.indices == []
    requires IsArrayIndex(n)
    ensures Keys(Put(t, n, y)) == [n] + Keys(t)
    ensures Get(Put(t, n, y), n) == Some(y)
  {
    assert n != ProtoKey by {
      assert IsDigit(n[0]) && !IsDigit(ProtoKey[0]);
    }
    assert Put(t, n, y) == t.(indices := [Entry(n, y)]);
    assert KeysOf([Entry(n, y)]) == [n];
    PutGet(t, n, y, n);
  }

  /** `b|1,2|x`: an integer-like label is listed before an earlier plain one. */
  lemma ParseIndexLabelFirst(a: string, x: string, n: string, y: string)
    requires PlainLabel(a) && PlainValue(x) && PlainValue(y)
    requires IsArrayIndex(n)
    ensures var t := Parse(Pair(a, x) + [','] + Pair(n, y));
      Keys(t) == [n, a] && Get(t, n) == Some(y)
  {
    ParseOnePair(a, x);
    ParseAppendIndexPair(Pair(a, x), n, y);
  }

  lemma IndexLabelPlain(n: string)
    requires IsArrayIndex(n)
    ensures '|' !in n && ',' !in n
    ensures Trim(n) == n && Lower(n) == n
  {
    assert forall i :: 0 <= i < |n| ==> IsDigit(n[i]);
    TrimFixed(n);
  }
}
