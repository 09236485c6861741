/** The two-tier lookup of minfo.py:122-144: the EXIF entries are searched
    first, and only when they give nothing is one stream of the prober's
    output consulted. Nothing here raises: a missing tag, a missing stream
    or a missing stream key all give `None`. */
module Lookup {
  import opened Wrappers
  import opened Values
  import opened ExifParser

  /** One stream of the prober's output, as `json.loads` gives it. */
  type Stream = map<string, Value>

  /** The metadata record of one file: the parsed EXIF entries in the
      reader's order, and the prober's streams in file order. */
  datatype MInfo = MInfo(exif: seq<ExifEntry>, streams: seq<Stream>)

  /** Builds the record from the two tools' outputs, as the constructor
      does once both tools have run: the reader's text is parsed, the
      streams are stored as they are. */
  function FromToolOutput(exifText: string, streams: seq<Stream>, ns: NumberSyntax): (m: MInfo)
    ensures m.exif == ParseExif(exifText, ns)
    ensures WellFormed(m.exif)
    ensures |m.exif| == multiset(exifText)['\n'] + 1
    ensures m.streams == streams
  {
    MInfo(ParseExif(exifText, ns), streams)
  }

  /** Some entry of `exif` carries the tag `key`. */
  predicate HasKey(exif: seq<ExifEntry>, key: string) {
    exists i | 0 <= i < |exif| :: exif[i].0 == key
  }

  /** `i` is the first position of tag `key` in `exif`. */
  predicate IsFirst(exif: seq<ExifEntry>, key: string, i: int)
    requires 0 <= i < |exif|
  {
    exif[i].0 == key && !HasKey(exif[..i], key)
  }

  /** `_exif_data`: the value of the first entry whose key is `key`, or
      `None` when no entry has that key. */
  function ExifData(exif: seq<ExifEntry>, key: string): (v: Value)
    ensures !HasKey(exif, key) ==> v == Null
    ensures forall i | 0 <= i < |exif| && IsFirst(exif, key, i) :: v == exif[i].1
  {
    if exif == [] then Null
    else if exif[0].0 == key then
      assert IsFirst(exif, key, 0) by {
        assert exif[..0] == [];
      }
      exif[0].1
    else
      var v := ExifData(exif[1..], key);
      assert HasKey(exif, key) ==> HasKey(exif[1..], key) by {
        if HasKey(exif, key) {
          var i :| 0 <= i < |exif| && exif[i].0 == key;
          assert exif[1..][i - 1] == exif[i];
        }
      }
      assert forall i | 0 < i < |exif| && IsFirst(exif, key, i) :: IsFirst(exif[1..], key, i - 1) by {
        forall i | 0 < i < |exif| && IsFirst(exif, key, i)
          ensures IsFirst(exif[1..], key, i - 1)
        {
          assert exif[1..][..i - 1] == exif[..i][1..];
        }
      }
      v
  }

  /** A tag that occurs has a first position. */
  lemma FirstExists(exif: seq<ExifEntry>, key: string) returns (i: nat)
    requires HasKey(exif, key)
    ensures i < |exif| && IsFirst(exif, key, i)
  {
    i := 0;
    while exif[i].0 != key
      invariant i < |exif|
      invariant !HasKey(exif[..i], key)
      invariant HasKey(exif[i..], key)
      decreases |exif| - i
    {
      assert exif[i..] == [exif[i]] + exif[i + 1..];
      assert exif[..i + 1] == exif[..i] + [exif[i]];
      i := i + 1;
    }
  }

  /** First match wins over a concatenation: entries after a block that
      already has the tag are never seen. */
  lemma {:induction false} ExifDataAppend(a: seq<ExifEntry>, b: seq<ExifEntry>, key: string)
    ensures ExifData(a + b, key) == if HasKey(a, key) then ExifData(a, key) else ExifData(b, key)
  {
    if a == [] {
      assert a + b == b;
    } else {
      assert (a + b)[1..] == a[1..] + b;
      ExifDataAppend(a[1..], b, key);
      if a[0].0 != key {
        assert HasKey(a, key) <==> HasKey(a[1..], key) by {
          if HasKey(a, key) {
            var i :| 0 <= i < |a| && a[i].0 == key;
            assert a[1..][i - 1] == a[i];
          }
          if HasKey(a[1..], key) {
            var i :| 0 <= i < |a[1..]| && a[1..][i].0 == key;
            assert a[i + 1] == a[1..][i];
          }
        }
      } else {
        assert HasKey(a, key) by {
          assert a[0].0 == key;
        }
      }
    }
  }

  /** A duplicate of a tag that already occurs changes nothing. */
  lemma LaterDuplicateIgnored(exif: seq<ExifEntry>, key: string, v: Value)
    requires HasKey(exif, key)
    ensures ExifData(exif + [(key, v)], key) == ExifData(exif, key)
  {
    ExifDataAppend(exif, [(key, v)], key);
  }

  /** Python's `lst[index]` position: a negative index counts from the end;
      `None` stands for the `IndexError` an out-of-range index raises. */
  function ListIndex(index: int, length: nat): (r: Option<nat>)
    ensures r.None? <==> index + length < 0 || length <= index
    ensures r.Some? ==> r.value < length
    ensures 0 <= index < length ==> r == Some(index)
    ensures index < 0 <= index + length ==> r == Some(length + index)
  {
    if 0 <= index < length then Some(index)
    else if index < 0 <= index + length then Some(length + index)
    else None
  }

  /** `_stream_data`: `stream.get(key)` on the stream at `index`, with `None`
      when the index is out of range (the `IndexError` is caught), when the
      key is `None` and when the stream lacks the key. */
  function StreamData(streams: seq<Stream>, index: int, key: Option<string>): (v: Value)
    ensures ListIndex(index, |streams|).None? ==> v == Null
    ensures key.None? ==> v == Null
    ensures forall i | ListIndex(index, |streams|) == Some(i) ::
      (key.Some? && key.value in streams[i] ==> v == streams[i][key.value])
      && (key.Some? && key.value !in streams[i] ==> v == Null)
  {
    match ListIndex(index, |streams|)
    case None => Null
    case Some(i) =>
      match key
      case None => Null
      case Some(k) => if k in streams[i] then streams[i][k] else Null
  }

  /** `v` is what the two-tier lookup must give: the stream's value when the
      entries lack the tag, and the first entry's value, never `None`, when
      well-formed entries have it. */
  predicate Answers(m: MInfo, exifKey: string, streamKey: Option<string>, index: int, v: Value) {
    && (!HasKey(m.exif, exifKey) ==> v == StreamData(m.streams, index, streamKey))
    && (WellFormed(m.exif) ==>
          forall i | 0 <= i < |m.exif| && IsFirst(m.exif, exifKey, i) :: v == m.exif[i].1 && v != Null)
  }

  /** `_find_data`: the EXIF value for `exifKey` when there is one, else the
      stream value for `streamKey`. With well-formed entries EXIF wins
      whenever it has the tag, and the streams are consulted only when it
      does not. */
  function FindData(m: MInfo, exifKey: string, streamKey: Option<string>, index: int): (v: Value)
    ensures Answers(m, exifKey, streamKey, index, v)
  {
    var data := ExifData(m.exif, exifKey);
    if data == Null then StreamData(m.streams, index, streamKey) else data
  }

  /** EXIF precedence: when the entries have the tag, the streams do not
      matter at all. */
  lemma ExifWins(m: MInfo, streams: seq<Stream>, exifKey: string, streamKey: Option<string>, index: int)
    requires WellFormed(m.exif)
    requires HasKey(m.exif, exifKey)
    ensures FindData(m, exifKey, streamKey, index) == FindData(MInfo(m.exif, streams), exifKey, streamKey, index)
    ensures FindData(m, exifKey, streamKey, index) == ExifData(m.exif, exifKey) != Null
  {
    var i := FirstExists(m.exif, exifKey);
  }

  /** Absent, never an error: with well-formed entries the lookup gives
      `None` exactly when the entries lack the tag and the stream gives
      nothing for the key. */
  lemma FindDataAbsent(m: MInfo, exifKey: string, streamKey: Option<string>, index: int)
    requires WellFormed(m.exif)
    ensures FindData(m, exifKey, streamKey, index) == Null <==>
      !HasKey(m.exif, exifKey) && StreamData(m.streams, index, streamKey) == Null
  {
    if HasKey(m.exif, exifKey) {
      var i := FirstExists(m.exif, exifKey);
    }
  }
}
