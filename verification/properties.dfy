/** The derived properties of the metadata record (minfo.py:66-119) and the
    raw-key query of the command-line printer (minfo.py:189). Each is a
    two-tier lookup with a fixed pair of names; `resolution` combines two
    lookups and `duration` cuts a unit suffix. */
module Properties {
  import opened Wrappers
  import opened PyText
  import opened Values
  import opened ExifParser
  import opened Lookup

  /** The stream the properties read: `_find_data`'s default index. */
  const DefaultStream: int := 0

  /** The width half of `resolution`. */
  function Width(m: MInfo): (v: Value)
    ensures Answers(m, "Source Image Width", Some("width"), DefaultStream, v)
  {
    FindData(m, "Source Image Width", Some("width"), DefaultStream)
  }

  /** The height half of `resolution`. */
  function Height(m: MInfo): (v: Value)
    ensures Answers(m, "Source Image Height", Some("height"), DefaultStream, v)
  {
    FindData(m, "Source Image Height", Some("height"), DefaultStream)
  }

  /** `resolution`: the pair `(width, height)`, partial pairs included, and
      `None` instead of the pair `(None, None)`. */
  function Resolution(m: MInfo): (r: Option<(Value, Value)>)
    ensures r.None? <==> Width(m) == Null && Height(m) == Null
    ensures r.Some? ==> r.value == (Width(m), Height(m))
  {
    var pair := (Width(m), Height(m));
    if pair != (Null, Null) then Some(pair) else None
  }

  /** `resolution` is `None` exactly when neither source knows either
      dimension: no width or height tag in the EXIF entries and no usable
      `width` or `height` in the first stream. */
  lemma ResolutionAbsent(m: MInfo)
    requires WellFormed(m.exif)
    ensures Resolution(m).None? <==>
      && !HasKey(m.exif, "Source Image Width")
      && !HasKey(m.exif, "Source Image Height")
      && StreamData(m.streams, DefaultStream, Some("width")) == Null
      && StreamData(m.streams, DefaultStream, Some("height")) == Null
  {
    FindDataAbsent(m, "Source Image Width", Some("width"), DefaultStream);
    FindDataAbsent(m, "Source Image Height", Some("height"), DefaultStream);
  }

  /** A partial pair is kept: with a width tag but no height from either
      source, `resolution` is `(width, None)`. */
  lemma ResolutionPartial(m: MInfo)
    requires WellFormed(m.exif)
    requires HasKey(m.exif, "Source Image Width")
    requires !HasKey(m.exif, "Source Image Height")
    requires StreamData(m.streams, DefaultStream, Some("height")) == Null
    ensures Resolution(m) == Some((ExifData(m.exif, "Source Image Width"), Null))
  {
    ExifWins(m, m.streams, "Source Image Width", Some("width"), DefaultStream);
  }

  /** Without EXIF dimension tags the pair comes from the first stream's
      `width` and `height`. */
  lemma ResolutionFromStream(m: MInfo, w: int, h: int)
    requires !HasKey(m.exif, "Source Image Width") && !HasKey(m.exif, "Source Image Height")
    requires |m.streams| > 0
    requires "width" in m.streams[0] && m.streams[0]["width"] == Int(w)
    requires "height" in m.streams[0] && m.streams[0]["height"] == Int(h)
    ensures Resolution(m) == Some((Int(w), Int(h)))
  {
  }

  /** `fps`. */
  function Fps(m: MInfo): (v: Value)
    ensures Answers(m, "Video Frame Rate", Some("r_frame_rate"), DefaultStream, v)
  {
    FindData(m, "Video Frame Rate", Some("r_frame_rate"), DefaultStream)
  }

  /** `fps` is the EXIF frame rate when the reader reported one, otherwise
      the first stream's `r_frame_rate`, whatever its type (an audio stream
      gives the string "0/0"). */
  lemma FpsSource(m: MInfo)
    requires WellFormed(m.exif)
    ensures HasKey(m.exif, "Video Frame Rate") ==>
      Fps(m) == ExifData(m.exif, "Video Frame Rate") != Null
    ensures !HasKey(m.exif, "Video Frame Rate") ==>
      Fps(m) == StreamData(m.streams, DefaultStream, Some("r_frame_rate"))
  {
    if HasKey(m.exif, "Video Frame Rate") {
      ExifWins(m, m.streams, "Video Frame Rate", Some("r_frame_rate"), DefaultStream);
    }
  }

  /** The post-processing of `duration` on the looked-up value: `None`
      passes; a string containing 's' anywhere loses its last character
      and goes through `float`; any other string passes unchanged. On the
      other types `'s' in value` either raises `TypeError` (numbers and
      booleans) or is a membership test after which slicing and `float`
      raise it. */
  function DropUnit(v: Value, ns: NumberSyntax): (r: Result<Value, PyError>)
    ensures r.Ok? && r.value.Float? <==>
      v.Str? && 's' in v.s && ns.parseFloat(SliceTo(v.s, -1)).Some?
    ensures r.Ok? && r.value.Float? ==> r.value.bits == ns.parseFloat(SliceTo(v.s, -1)).value
    ensures r.Ok? && !r.value.Float? ==> r.value == v
    ensures r == Err(ValueError) <==> v.Str? && 's' in v.s && ns.parseFloat(SliceTo(v.s, -1)).None?
    ensures v.Int? || v.Float? || v.Bool? ==> r == Err(TypeError)
    ensures v == Null ==> r == Ok(Null)
    ensures v.Str? && 's' !in v.s ==> r == Ok(v)
    ensures v.Array? && Str("s") !in v.items ==> r == Ok(v)
    ensures v.Object? && "s" !in v.fields ==> r == Ok(v)
    ensures v.Array? && Str("s") in v.items ==> r == Err(TypeError)
    ensures v.Object? && "s" in v.fields ==> r == Err(TypeError)
  {
    match v
    case Null => Ok(Null)
    case Str(s) =>
      if 's' in s then
        match ns.parseFloat(SliceTo(s, -1))
        case Some(f) => Ok(Float(f))
        case None => Err(ValueError)
      else Ok(v)
    case Bool(_) => Err(TypeError)
    case Int(_) => Err(TypeError)
    case Float(_) => Err(TypeError)
    case Array(items) => if Str("s") in items then Err(TypeError) else Ok(v)
    case Object(fields) => if "s" in fields then Err(TypeError) else Ok(v)
  }

  /** Appending the unit and dropping it again is `float` of the number:
      "10.02 s" gives `float("10.02 ")`. */
  lemma DropUnitRoundTrip(t: string, ns: NumberSyntax)
    ensures DropUnit(Str(t + "s"), ns) ==
      match ns.parseFloat(t)
      case Some(f) => Ok(Float(f))
      case None => Err(ValueError)
  {
    assert SliceTo(t + "s", -1) == t;
    assert (t + "s")[|t|] == 's';
  }

  /** The test is a substring test, not a suffix test: a string with an 's'
      anywhere loses its last character, whatever that character is. */
  lemma DropUnitAnyS(t: string, c: char, ns: NumberSyntax)
    requires 's' in t
    ensures DropUnit(Str(t + [c]), ns) ==
      match ns.parseFloat(t)
      case Some(f) => Ok(Float(f))
      case None => Err(ValueError)
  {
    assert SliceTo(t + [c], -1) == t;
    var k :| 0 <= k < |t| && t[k] == 's';
    assert (t + [c])[k] == 's';
  }

  /** `duration`. */
  function Duration(m: MInfo, ns: NumberSyntax): (r: Result<Value, PyError>)
    ensures !HasKey(m.exif, "Duration") ==>
      r == DropUnit(StreamData(m.streams, DefaultStream, Some("duration")), ns)
    ensures WellFormed(m.exif) ==>
      forall i | 0 <= i < |m.exif| && IsFirst(m.exif, "Duration", i) :: r == DropUnit(m.exif[i].1, ns)
  {
    DropUnit(FindData(m, "Duration", Some("duration"), DefaultStream), ns)
  }

  /** `duration` post-processes the EXIF duration when the reader reported
      one and the first stream's `duration` otherwise; a parsed EXIF
      duration is a float or a string, so a numeric one raises `TypeError`,
      and an absent duration is `None`, not an error. */
  lemma DurationSource(m: MInfo, ns: NumberSyntax)
    requires WellFormed(m.exif)
    ensures HasKey(m.exif, "Duration") ==>
      Duration(m, ns) == DropUnit(ExifData(m.exif, "Duration"), ns)
    ensures HasKey(m.exif, "Duration") && ExifData(m.exif, "Duration").Float? ==>
      Duration(m, ns) == Err(TypeError)
    ensures !HasKey(m.exif, "Duration") ==>
      Duration(m, ns) == DropUnit(StreamData(m.streams, DefaultStream, Some("duration")), ns)
    ensures !HasKey(m.exif, "Duration") && StreamData(m.streams, DefaultStream, Some("duration")) == Null ==>
      Duration(m, ns) == Ok(Null)
  {
    if HasKey(m.exif, "Duration") {
      ExifWins(m, m.streams, "Duration", Some("duration"), DefaultStream);
    }
  }

  /** The properties that read the EXIF entries only (their stream key is `None`). */
  datatype ExifTag =
    | CameraModel
    | CameraLens
    | Aperture
    | FocalLength
    | Iso
    | ShutterSpeed
    | ColorTemp
    | WhiteBalance

  /** The reader's tag name behind each EXIF-only property. */
  function TagName(t: ExifTag): (name: string) {
    match t
    case CameraModel => "Camera Model Name"
    case CameraLens => "Lens Type"
    case Aperture => "Aperture"
    case FocalLength => "Focal Length"
    case Iso => "ISO"
    case ShutterSpeed => "Shutter Speed"
    case ColorTemp => "Color Temp Kelvin"
    case WhiteBalance => "White Balance"
  }

  /** `camera_model` ... `white_balance`: a lookup whose stream key is `None`. */
  function ExifOnly(m: MInfo, t: ExifTag): (v: Value)
    ensures Answers(m, TagName(t), None, DefaultStream, v)
    ensures !HasKey(m.exif, TagName(t)) ==> v == Null
  {
    FindData(m, TagName(t), None, DefaultStream)
  }

  /** An EXIF-only property ignores the streams entirely and is `None`
      exactly when the reader did not report its tag. */
  lemma ExifOnlySource(m: MInfo, streams: seq<Stream>, t: ExifTag)
    requires WellFormed(m.exif)
    ensures ExifOnly(m, t) == ExifData(m.exif, TagName(t))
    ensures ExifOnly(m, t) == ExifOnly(MInfo(m.exif, streams), t)
    ensures ExifOnly(m, t) == Null <==> !HasKey(m.exif, TagName(t))
  {
    FindDataAbsent(m, TagName(t), None, DefaultStream);
    if HasKey(m.exif, TagName(t)) {
      ExifWins(m, streams, TagName(t), None, DefaultStream);
    }
  }

  /** The printer's raw-key query: the same name is used for the EXIF tag
      and for the first stream's key. */
  function KeyValue(m: MInfo, key: string): (v: Value)
    ensures Answers(m, key, Some(key), DefaultStream, v)
  {
    FindData(m, key, Some(key), DefaultStream)
  }

  /** A raw key is answered by the EXIF entries when they have it and by the
      first stream otherwise, and is `None` only when neither has it. */
  lemma KeyValueSource(m: MInfo, key: string)
    requires WellFormed(m.exif)
    ensures HasKey(m.exif, key) ==> KeyValue(m, key) == ExifData(m.exif, key) != Null
    ensures !HasKey(m.exif, key) ==> KeyValue(m, key) == StreamData(m.streams, DefaultStream, Some(key))
    ensures KeyValue(m, key) == Null <==>
      !HasKey(m.exif, key) && (|m.streams| == 0 || key !in m.streams[0] || m.streams[0][key] == Null)
  {
    FindDataAbsent(m, key, Some(key), DefaultStream);
    if HasKey(m.exif, key) {
      ExifWins(m, m.streams, key, Some(key), DefaultStream);
    }
  }
}
