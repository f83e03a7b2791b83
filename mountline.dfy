/**
 * One line of the mount table: the `MountPoint` record and the parser that
 * builds it from the six space-separated fields
 * `source target fstype options freq passno`.
 */
module MountLine {
  import opened Results
  import opened PyStr
  import opened Decimal

  /**
   * One entry of the mount table, an immutable value compared field by field.
   * `target` is the resolved path of the mount point; `options` keeps the
   * comma-separated flags in order, duplicates included.
   */
  datatype MountPoint = MountPoint(
    source: string,
    target: string,
    fstype: string,
    options: seq<string>,
    freq: nat,
    passno: nat)
  {
    /** `os.fspath(mountpoint)`: a record stands for the path of its target. */
    function FsPath(): string {
      target
    }
  }

  /**
   * The `ValueError`s the line parser raises. Each carries the text it is
   * about: the whole line, the bad number field, or the raw target field.
   */
  datatype ParseError =
    | WrongFieldCount(line: string)
    | InvalidFreq(raw: string)
    | InvalidPassno(raw: string)
    | UndecodableTarget(raw: string)

  /**
   * The parts of the parser that depend on Python's codecs and on the live
   * file system, given as values. `decode` is the `raw_unicode_escape` encode
   * followed by the `unicode_escape` decode of the target field, which raises
   * (`None`) on a malformed escape; `resolve` is `Path(p).resolve()`.
   */
  datatype Resolver = Resolver(decode: string -> Option<string>, resolve: string -> string)

  /** The codec leaves text without backslashes as it is. */
  ghost predicate DecodesPlainText(env: Resolver) {
    forall s :: '\\' !in s ==> env.decode(s) == Some(s)
  }

  /** The escapes the kernel writes for a space and a newline inside a field. */
  const EscapedSpace: string := "\\040"
  const EscapedNewline: string := "\\012"

  /**
   * Replaces `\040` by a space, then `\012` by a newline, in one field. Each
   * four-character escape becomes one character, so a field never grows.
   */
  function Unescape(field: string): (r: string)
    ensures |r| <= |field|
  {
    ReplaceNeverLonger(field, EscapedSpace, " ");
    ReplaceNeverLonger(ReplaceAll(field, EscapedSpace, " "), EscapedNewline, "\n");
    ReplaceAll(ReplaceAll(field, EscapedSpace, " "), EscapedNewline, "\n")
  }

  /**
   * The fields of a line: strip spaces and newlines from both ends, split on
   * every single space, and only then unescape each field. The number of
   * fields is therefore fixed by the literal spaces of the stripped line:
   * one more than there are.
   */
  function LineParts(line: string): (parts: seq<string>)
    ensures |parts| == Count(Strip(line), ' ') + 1
  {
    SplitPieces(Strip(line), ' ');
    UnescapeFields(Split(Strip(line), ' '))
  }

  /** Unescapes each field of a list, keeping the list's length and order. */
  function UnescapeFields(raw: seq<string>): (fields: seq<string>)
    ensures |fields| == |raw|
  {
    if raw == [] then [] else [Unescape(raw[0])] + UnescapeFields(raw[1..])
  }

  /** Each field is the unescaped field at the same place. */
  lemma {:induction false} UnescapeFieldsEach(raw: seq<string>)
    ensures forall k :: 0 <= k < |raw| ==> UnescapeFields(raw)[k] == Unescape(raw[k])
  {
    if raw != [] {
      UnescapeFieldsEach(raw[1..]);
      var fields := UnescapeFields(raw);
      forall k | 0 < k < |raw|
        ensures fields[k] == Unescape(raw[k])
      {
        assert fields[k] == UnescapeFields(raw[1..])[k - 1] && raw[k] == raw[1..][k - 1];
      }
    }
  }

  /**
   * Parses one line of the mount table. The checks come in a fixed order and
   * the first that fails is the error: the number of fields, then the dump
   * frequency, then the pass number, then the decoding of the target.
   * Every record it returns has at least one option, since `split` never
   * gives an empty list. `ParseLineRejects` and `ParseLineAccepts` state the
   * rest of what it does.
   */
  function ParseLine(line: string, env: Resolver): (r: Result<MountPoint, ParseError>)
    ensures r.Ok? ==> |r.value.options| >= 1
  {
    var parts := LineParts(line);
    if |parts| != 6 then Err(WrongFieldCount(line))
    else if !IsDigits(parts[4]) then Err(InvalidFreq(parts[4]))
    else if !IsDigits(parts[5]) then Err(InvalidPassno(parts[5]))
    else
      match env.decode(parts[1])
      case None => Err(UndecodableTarget(parts[1]))
      case Some(decoded) =>
        Ok(MountPoint(
          source := parts[0],
          target := env.resolve(decoded),
          fstype := parts[2],
          options := Split(parts[3], ','),
          freq := DigitsValue(parts[4]),
          passno := DigitsValue(parts[5])))
  }

  /**
   * When a line is rejected, and with which error. A line is rejected for its
   * field count exactly when its stripped text does not hold five literal
   * spaces; only then are the frequency, the pass number and the target
   * looked at, in that order, and the first bad one is reported.
   */
  lemma ParseLineRejects(line: string, env: Resolver)
    ensures var r := ParseLine(line, env);
      && (Count(Strip(line), ' ') != 5 <==> r == Err(WrongFieldCount(line)))
      && (Count(Strip(line), ' ') == 5 ==>
            var f := LineParts(line);
            && (!IsDigits(f[4]) ==> r == Err(InvalidFreq(f[4])))
            && (IsDigits(f[4]) && !IsDigits(f[5]) ==> r == Err(InvalidPassno(f[5])))
            && (IsDigits(f[4]) && IsDigits(f[5]) && env.decode(f[1]).None? ==> r == Err(UndecodableTarget(f[1])))
            && (r.Ok? <==> IsDigits(f[4]) && IsDigits(f[5]) && env.decode(f[1]).Some?))
  {
    var f := LineParts(line);
    var r := ParseLine(line, env);
    if |f| != 6 {
      assert r == Err(WrongFieldCount(line));
    } else if !IsDigits(f[4]) {
      assert r == Err(InvalidFreq(f[4]));
    } else if !IsDigits(f[5]) {
      assert r == Err(InvalidPassno(f[5]));
    } else if env.decode(f[1]).None? {
      assert r == Err(UndecodableTarget(f[1]));
    } else {
      assert r.Ok?;
    }
  }

  /**
   * What an accepted line gives: the unescaped source and type as they are,
   * the target decoded and resolved, the options that re-join to the fourth
   * field (at least one, none holding a comma, order and duplicates kept),
   * and the two numbers whose decimal form is their field without leading
   * zeros.
   */
  lemma ParseLineAccepts(line: string, env: Resolver)
    requires ParseLine(line, env).Ok?
    ensures var m := ParseLine(line, env).value; var f := LineParts(line);
      && |f| == 6
      && m.source == f[0]
      && env.decode(f[1]).Some? && m.target == env.resolve(env.decode(f[1]).value)
      && m.fstype == f[2]
      && |m.options| >= 1
      && Join(m.options, ',') == f[3]
      && (forall k :: 0 <= k < |m.options| ==> ',' !in m.options[k])
      && NatToDecimal(m.freq) == StripZeros(f[4])
      && NatToDecimal(m.passno) == StripZeros(f[5])
  {
    var f := LineParts(line);
    JoinSplit(f[3], ',');
    SplitPieces(f[3], ',');
    DigitsReadBack(f[4]);
    DigitsReadBack(f[5]);
  }

  /** A digit string without its leading zeros, keeping one digit. */
  function StripZeros(s: string): (r: string)
    requires IsDigits(s)
    ensures IsDigits(r) && (r[0] != '0' || r == "0")
  {
    if |s| > 1 && s[0] == '0' then StripZeros(s[1..]) else s
  }

  /** The value of a digit string, written back in decimal, is the string without leading zeros. */
  lemma {:induction false} DigitsReadBack(s: string)
    requires IsDigits(s)
    ensures NatToDecimal(DigitsValue(s)) == StripZeros(s)
  {
    if |s| > 1 && s[0] == '0' {
      DigitsReadBack(s[1..]);
      LeadingZeroAddsNothing(s);
    } else {
      DecimalOfDigits(s);
    }
  }

  /** A leading zero does not change the value of a digit string. */
  lemma {:induction false} LeadingZeroAddsNothing(s: string)
    requires IsDigits(s) && |s| > 1 && s[0] == '0'
    ensures DigitsValue(s) == DigitsValue(s[1..])
  {
    var init := s[..|s| - 1];
    assert s[1..][..|s| - 2] == init[1..];
    if |init| > 1 {
      LeadingZeroAddsNothing(init);
    } else {
      assert init == "0";
    }
  }

  // ----- The inverse: how the kernel writes a line -----

  function EscapeChar(c: char): string {
    if c == ' ' then EscapedSpace else if c == '\n' then EscapedNewline else [c]
  }

  /** Writes a field the way the mount table shows it: spaces and newlines as escapes. */
  function Escape(s: string): (r: string)
    ensures ' ' !in r && '\n' !in r
    ensures r == [] <==> s == []
    ensures s != [] ==> r != [] && !IsStripChar(r[0])
  {
    if s == [] then [] else EscapeChar(s[0]) + Escape(s[1..])
  }

  /**
   * Writes every `c` of `s` as `esc` and leaves the rest alone; with a newline
   * and `\012` it is what remains of `Escape(s)` once `\040` is undone.
   */
  function EscapeEach(s: string, c: char, esc: string): string {
    if s == [] then [] else (if s[0] == c then esc else [s[0]]) + EscapeEach(s[1..], c, esc)
  }

  /**
   * Writes a record as a mount-table line. The target written is the raw
   * field, before decoding and resolving.
   */
  function FormatLine(m: MountPoint): string
    requires |m.options| >= 1
  {
    Join(FormatFields(m), ' ')
  }

  function FormatFields(m: MountPoint): (fields: seq<string>)
    requires |m.options| >= 1
    ensures |fields| == 6
  {
    [Escape(m.source), Escape(m.target), Escape(m.fstype), Escape(Join(m.options, ',')),
     NatToDecimal(m.freq), NatToDecimal(m.passno)]
  }

  /**
   * A record the kernel can write so that the parser reads it back: a
   * non-empty source (an empty one would leave the line starting with a
   * space, which the parser strips), no backslashes (the parser undoes only
   * two escapes), at least one option and no comma inside an option.
   */
  ghost predicate Writable(m: MountPoint) {
    && m.source != []
    && '\\' !in m.source && '\\' !in m.target && '\\' !in m.fstype
    && |m.options| >= 1
    && forall k :: 0 <= k < |m.options| ==> '\\' !in m.options[k] && ',' !in m.options[k]
  }

  // ----- Lemmas -----

  /** Undoing `\040` leaves an escaped newline alone. */
  lemma NewlineEscapeSurvives(t: string)
    ensures ReplaceAll(EscapedNewline + t, EscapedSpace, " ") == EscapedNewline + ReplaceAll(t, EscapedSpace, " ")
  {
    assert EscapedNewline[..4][2] != EscapedSpace[2];
    assert EscapedNewline[1..] == "012";
    ReplaceSkipsBlock(EscapedNewline, t, EscapedSpace, " ");
  }

  /** Undoing `\040` in an escaped field leaves the newline escapes in place. */
  lemma {:induction false} UnescapeSpaces(s: string)
    requires '\\' !in s
    ensures ReplaceAll(Escape(s), EscapedSpace, " ") == EscapeEach(s, '\n', EscapedNewline)
  {
    if s != [] {
      var c, t := s[0], s[1..];
      var tail := Escape(t);
      UnescapeSpaces(t);
      assert Escape(s) == EscapeChar(c) + tail;
      if c == ' ' {
        ReplaceHits(tail, EscapedSpace, " ");
      } else if c == '\n' {
        NewlineEscapeSurvives(tail);
      } else {
        ReplaceSkips(c, tail, EscapedSpace, " ");
      }
    }
  }

  /** Replacing `esc` by `c` undoes writing each `c` as `esc`, when `esc` starts with a character `s` lacks. */
  lemma {:induction false} UnescapeEach(s: string, c: char, esc: string)
    requires |esc| > 0 && esc[0] !in s
    ensures ReplaceAll(EscapeEach(s, c, esc), esc, [c]) == s
  {
    if s != [] {
      var d, t := s[0], s[1..];
      var tail := EscapeEach(t, c, esc);
      UnescapeEach(t, c, esc);
      if d == c {
        ReplaceHits(tail, esc, [c]);
      } else {
        ReplaceSkips(d, tail, esc, [c]);
      }
      assert s == [d] + t;
    }
  }

  /** Undoing `\012` restores the newlines. */
  lemma UnescapeNewlines(s: string)
    requires '\\' !in s
    ensures ReplaceAll(EscapeEach(s, '\n', EscapedNewline), EscapedNewline, "\n") == s
  {
    UnescapeEach(s, '\n', EscapedNewline);
  }

  /** Unescaping undoes escaping, for text without backslashes. */
  lemma UnescapeEscape(s: string)
    requires '\\' !in s
    ensures Unescape(Escape(s)) == s
  {
    UnescapeSpaces(s);
    UnescapeNewlines(s);
  }

  /** Undoing `\012` leaves an escaped space alone. */
  lemma SpaceEscapeSurvives(t: string)
    ensures ReplaceAll(EscapedSpace + t, EscapedNewline, "\n") == EscapedSpace + ReplaceAll(t, EscapedNewline, "\n")
  {
    assert EscapedSpace[..4][2] != EscapedNewline[2];
    assert EscapedSpace[1..] == "040";
    ReplaceSkipsBlock(EscapedSpace, t, EscapedNewline, "\n");
  }

  /** Undoing `\012` first in an escaped field leaves the space escapes in place. */
  lemma {:induction false} UnescapeNewlinesFirst(s: string)
    requires '\\' !in s
    ensures ReplaceAll(Escape(s), EscapedNewline, "\n") == EscapeEach(s, ' ', EscapedSpace)
  {
    if s != [] {
      var c, t := s[0], s[1..];
      var tail := Escape(t);
      UnescapeNewlinesFirst(t);
      assert Escape(s) == EscapeChar(c) + tail;
      if c == '\n' {
        ReplaceHits(tail, EscapedNewline, "\n");
      } else if c == ' ' {
        SpaceEscapeSurvives(tail);
      } else {
        ReplaceSkips(c, tail, EscapedNewline, "\n");
      }
    }
  }

  /**
   * On an escaped field the two replacements can run in either order: undoing
   * `\012` before `\040` gives back the same text as the parser's order.
   */
  lemma UnescapeOrderIrrelevant(s: string)
    requires '\\' !in s
    ensures ReplaceAll(ReplaceAll(Escape(s), EscapedNewline, "\n"), EscapedSpace, " ") == Unescape(Escape(s))
  {
    UnescapeNewlinesFirst(s);
    UnescapeEach(s, ' ', EscapedSpace);
    UnescapeEscape(s);
  }

  /**
   * A field holding an escaped space stays one field: splitting the escaped
   * text finds no space, whereas unescaping before splitting would cut the
   * field in two.
   */
  lemma EscapedSpaceStaysInField(s: string)
    requires '\\' !in s && ' ' in s
    ensures Split(Escape(s), ' ') == [Escape(s)]
    ensures Unescape(Escape(s)) == s && |Split(Unescape(Escape(s)), ' ')| >= 2
  {
    SplitWithoutSeparator(Escape(s), ' ');
    UnescapeEscape(s);
  }

  /** A written line starts with the escaped source and ends with a digit: nothing to strip. */
  lemma FormattedLineUnstripped(m: MountPoint)
    requires Writable(m)
    ensures Strip(FormatLine(m)) == FormatLine(m)
  {
    var fields := FormatFields(m);
    JoinEnds(fields, ' ');
    assert FormatLine(m)[0] == fields[0][0];
  }

  /** The escaped fields of a written line unescape to the record's text. */
  lemma FormattedFieldsUnescape(m: MountPoint)
    requires Writable(m)
    ensures UnescapeFields(FormatFields(m))
         == [m.source, m.target, m.fstype, Join(m.options, ','), NatToDecimal(m.freq), NatToDecimal(m.passno)]
  {
    var raw := FormatFields(m);
    var fields := UnescapeFields(raw);
    var want := [m.source, m.target, m.fstype, Join(m.options, ','), NatToDecimal(m.freq), NatToDecimal(m.passno)];
    UnescapeFieldsEach(raw);
    forall k | 0 <= k < 6
      ensures fields[k] == want[k]
    {
      if k == 0 {
        UnescapeEscape(m.source);
      } else if k == 1 {
        UnescapeEscape(m.target);
      } else if k == 2 {
        UnescapeEscape(m.fstype);
      } else if k == 3 {
        JoinExcludes(m.options, ',', '\\');
        UnescapeEscape(Join(m.options, ','));
      } else {
        UnescapePlain(raw[k]);
      }
    }
  }

  /** A field without backslashes has nothing to unescape. */
  lemma UnescapePlain(s: string)
    requires '\\' !in s
    ensures Unescape(s) == s
  {
    ReplaceAbsent(s, EscapedSpace, " ");
    ReplaceAbsent(s, EscapedNewline, "\n");
  }

  /** A written line has nothing to strip, and its fields unescape to the record's text. */
  lemma FormattedLineParts(m: MountPoint)
    requires Writable(m)
    ensures LineParts(FormatLine(m))
         == [m.source, m.target, m.fstype, Join(m.options, ','), NatToDecimal(m.freq), NatToDecimal(m.passno)]
  {
    FormattedLineUnstripped(m);
    SplitJoin(FormatFields(m), ' ');
    FormattedFieldsUnescape(m);
  }

  /** Parsing a written line gives back the record, with its target decoded and resolved. */
  lemma ParseFormattedLine(m: MountPoint, env: Resolver)
    requires Writable(m) && DecodesPlainText(env)
    ensures ParseLine(FormatLine(m), env) == Ok(m.(target := env.resolve(m.target)))
  {
    var parts := LineParts(FormatLine(m));
    FormattedLineParts(m);
    assert parts[1] == m.target && env.decode(parts[1]) == Some(m.target);
    assert parts[3] == Join(m.options, ',');
    assert parts[4] == NatToDecimal(m.freq) && parts[5] == NatToDecimal(m.passno);
    SplitJoin(m.options, ',');
    DecimalRoundTrip(m.freq);
    DecimalRoundTrip(m.passno);
  }

  /** A record's path is its target: the resolved decoding of the second field. */
  lemma ParsedPathIsResolvedTarget(line: string, env: Resolver)
    requires ParseLine(line, env).Ok?
    ensures var f := LineParts(line);
      |f| == 6 && env.decode(f[1]).Some? &&
      ParseLine(line, env).value.FsPath() == env.resolve(env.decode(f[1]).value)
  {
  }

  /** A line of nothing but spaces and newlines is rejected for its field count. */
  lemma BlankLineRejected(line: string, env: Resolver)
    requires forall k :: 0 <= k < |line| ==> IsStripChar(line[k])
    ensures ParseLine(line, env) == Err(WrongFieldCount(line))
  {
    StripEnds(line);
  }
}
