/** The EXIF text parser (`_exif_parser`, minfo.py:147-159): the reader's
    output is cut into lines at every newline, each line into a key and a
    value text at its first colon, and the value text is run through Python's
    `int` and then `float`. */
module ExifParser {
  import opened Wrappers
  import opened PyText
  import opened Values
  import opened Seqs

  /** One parsed line: the tag name and its (possibly coerced) value. */
  type ExifEntry = (string, Value)

  /** The values the parser can produce: a float when the number grammar
      accepted the text, the text itself otherwise. */
  predicate IsParsedValue(v: Value) {
    v.Float? || v.Str?
  }

  /** Every value of `entries` is one the parser can produce; in particular none is `None`. */
  predicate WellFormed(entries: seq<ExifEntry>) {
    forall i | 0 <= i < |entries| :: IsParsedValue(entries[i].1)
  }

  /** The first pass of the coercion loop, `int(value)`, applied to the stripped text. */
  function TryInt(text: string, ns: NumberSyntax): (v: Value) {
    match ns.parseInt(text)
    case Some(n) => Int(n)
    case None => Str(text)
  }

  /** The second pass, `float(value)`, applied to whatever the first pass left:
      an int when `int` succeeded, the text otherwise. */
  function TryFloat(v: Value, ns: NumberSyntax): (w: Value)
    requires v.Str? || v.Int?
  {
    match v
    case Int(n) => Float(ns.intToFloat(n))
    case Str(t) =>
      match ns.parseFloat(t)
      case Some(f) => Float(f)
      case None => v
  }

  /** The coercion loop of minfo.py:153-157. It never breaks, so an accepted
      number always ends up a float, and text the grammar rejects is kept. */
  function Coerce(text: string, ns: NumberSyntax): (v: Value)
    ensures IsParsedValue(v)
    ensures v.Str? <==> !IsNumeric(ns, text)
    ensures v.Str? ==> v.s == text
  {
    TryFloat(TryInt(text, ns), ns)
  }

  /** Which float a number becomes: an int literal is converted by `float`
      after `int` accepted it; other text goes straight through `float`. */
  lemma CoerceNumber(text: string, ns: NumberSyntax)
    ensures ns.parseInt(text).Some? ==>
      Coerce(text, ns) == Float(ns.intToFloat(ns.parseInt(text).value))
    ensures ns.parseInt(text).None? && ns.parseFloat(text).Some? ==>
      Coerce(text, ns) == Float(ns.parseFloat(text).value)
  {
  }

  /** The key half of a line: `line[:index].strip()` with `index = line.find(':')`. */
  function LineKey(line: string): (key: string) {
    Strip(SliceTo(line, Find(line, ':')))
  }

  /** The value half of a line before coercion: `line[index+1:].strip()`. */
  function LineText(line: string): (text: string) {
    Strip(SliceFrom(line, Find(line, ':') + 1))
  }

  /** One line of the reader's output as a `(key, value)` pair. */
  function ParseLine(line: string, ns: NumberSyntax): (e: ExifEntry)
    ensures IsParsedValue(e.1)
    ensures e.1.Str? <==> !IsNumeric(ns, LineText(line))
    ensures e.1.Str? ==> e.1.s == LineText(line)
  {
    (LineKey(line), Coerce(LineText(line), ns))
  }

  /** A line with a colon splits at its first colon: the key is the stripped
      text before it, the value text is the stripped text after it, and any
      later colons stay in the value. */
  lemma ColonLine(before: string, after: string)
    requires ':' !in before
    ensures LineKey(before + ":" + after) == Strip(before)
    ensures LineText(before + ":" + after) == Strip(after)
    ensures multiset(LineText(before + ":" + after))[':'] == multiset(after)[':']
  {
    var line := before + ":" + after;
    FindAfterFree(before, ":" + after, ':');
    assert line == before + (":" + after);
    assert line[..|before|] == before;
    assert line[|before| + 1..] == after;
    StripKeepsSolidChars(after, ':');
  }

  /** A line without a colon: `find` gives -1, so the key is the line less
      its last character and the value text is the whole line, both stripped. */
  lemma NoColonLine(line: string)
    requires ':' !in line
    ensures line == [] ==> LineKey(line) == [] && LineText(line) == []
    ensures line != [] ==> LineKey(line) == Strip(line[..|line| - 1])
    ensures LineText(line) == Strip(line)
  {
    SliceToMinusOne(line);
    if line == [] {
      assert Strip(line) == [] by {
        var r := Strip(line);
        var i, j :| 0 <= i <= j <= |line| && StripsAt(line, r, i, j);
      }
    }
  }

  /** `_exif_parser`: one entry per newline-separated line, empty lines
      included, so there is always one entry more than there are newlines;
      every value is a float or a string, never `None`. */
  function ParseExif(data: string, ns: NumberSyntax): (entries: seq<ExifEntry>)
    ensures |entries| == |Split(data, '\n')| == multiset(data)['\n'] + 1
    ensures forall i | 0 <= i < |entries| :: entries[i] == ParseLine(Split(data, '\n')[i], ns)
    ensures WellFormed(entries)
  {
    SplitCount(data, '\n');
    MapSeq((line: string) => ParseLine(line, ns), Split(data, '\n'))
  }

  /** Parsing distributes over lines: the text before a newline and the
      text after it are parsed independently and their entries concatenated. */
  lemma ParseExifAround(a: string, b: string, ns: NumberSyntax)
    ensures ParseExif(a + "\n" + b, ns) == ParseExif(a, ns) + ParseExif(b, ns)
  {
    SplitAround(a, b, '\n');
    MapSeqAppend((line: string) => ParseLine(line, ns), Split(a, '\n'), Split(b, '\n'));
  }

  /** Empty text is one empty line, not an empty sequence; it yields the
      pair `('', '')` because the number grammar rejects "". */
  lemma ParseEmpty(ns: NumberSyntax)
    requires !IsNumeric(ns, "")
    ensures ParseExif("", ns) == [("", Str(""))]
  {
    ParseSingleLine("", ns);
    NoColonLine("");
  }

  /** Text without a newline is a single line and gives a single entry. */
  lemma ParseSingleLine(line: string, ns: NumberSyntax)
    requires '\n' !in line
    ensures ParseExif(line, ns) == [ParseLine(line, ns)]
  {
    SplitFree(line, '\n');
  }

  /** A trailing newline adds one final `('', '')` entry. */
  lemma ParseTrailingNewline(data: string, ns: NumberSyntax)
    requires !IsNumeric(ns, "")
    ensures ParseExif(data + "\n", ns) == ParseExif(data, ns) + [("", Str(""))]
  {
    var empty := ParseExif("", ns);
    ParseEmpty(ns);
    assert data + "\n" + "" == data + "\n";
    ParseExifAround(data, "", ns);
  }

  /** Whitespace around the key and around the value does not matter: a
      colon-free key and a value text, each with no whitespace at its ends,
      come back exactly. */
  lemma PaddedLine(key: string, text: string, p1: string, p2: string, p3: string, p4: string, ns: NumberSyntax)
    requires ':' !in key
    requires AllSpace(p1) && AllSpace(p2) && AllSpace(p3) && AllSpace(p4)
    requires key != [] ==> !IsSpace(key[0]) && !IsSpace(key[|key| - 1])
    requires text != [] ==> !IsSpace(text[0]) && !IsSpace(text[|text| - 1])
    ensures ParseLine((p1 + key + p2) + ":" + (p3 + text + p4), ns) == (key, Coerce(text, ns))
  {
    ColonLine(p1 + key + p2, p3 + text + p4);
    PaddedStrip(p1, key, p2);
    PaddedStrip(p3, text, p4);
  }

  /** Stripping removes exactly the whitespace padding around a trimmed core. */
  lemma PaddedStrip(p: string, core: string, q: string)
    requires AllSpace(p) && AllSpace(q)
    requires core != [] ==> !IsSpace(core[0]) && !IsSpace(core[|core| - 1])
    ensures Strip(p + core + q) == core
  {
    var s := p + core + q;
    var i, j := |p|, |p| + |core|;
    assert forall k | 0 <= k < i :: s[k] == p[k];
    assert forall k | j <= k < |s| :: s[k] == q[k - j];
    if core == [] {
      assert StripsAt(s, [], i, i);
    } else {
      assert s[i] == core[0] && s[j - 1] == core[|core| - 1];
      assert StripsAt(s, core, i, j);
    }
    StripsToUnique(s, Strip(s), core);
  }
}
