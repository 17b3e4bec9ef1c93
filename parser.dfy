/** The content markup parser: a title line, then one line of segments per
    non-blank input line. A segment is plain text or a `(base/reading)`
    annotation; `\` makes the next character literal everywhere. */
module Parser {

  datatype Segment = Plain(text: string) | Annotated(base: string, reading: string)

  datatype Line = Line(segments: seq<Segment>)

  datatype Content = Content(title: string, lines: seq<Line>)

  // ---------------------------------------------------------------------
  // Characters and whitespace
  // ---------------------------------------------------------------------

  /** Rust's `char::is_whitespace`: the Unicode White_Space property. */
  predicate IsWhitespace(c: char) {
    var code := c as int;
    (0x09 <= code <= 0x0D) || code == 0x20 || code == 0x85 || code == 0xA0 ||
    code == 0x1680 || (0x2000 <= code <= 0x200A) || code == 0x2028 || code == 0x2029 ||
    code == 0x202F || code == 0x205F || code == 0x3000
  }

  /** `str::trim_start`: the suffix left after the leading whitespace. */
  function TrimStart(s: string): (r: string)
    ensures |r| <= |s| && r == s[|s| - |r|..]
    ensures r == [] || !IsWhitespace(r[0])
    ensures forall k :: 0 <= k < |s| - |r| ==> IsWhitespace(s[k])
    decreases |s|
  {
    if s != [] && IsWhitespace(s[0]) then TrimStart(s[1..]) else s
  }

  /** `str::trim_end`: the prefix left before the trailing whitespace. */
  function TrimEnd(s: string): (r: string)
    ensures |r| <= |s| && r == s[..|r|]
    ensures r == [] || !IsWhitespace(r[|r| - 1])
    ensures forall k :: |r| <= k < |s| ==> IsWhitespace(s[k])
    decreases |s|
  {
    if s != [] && IsWhitespace(s[|s| - 1]) then TrimEnd(s[..|s| - 1]) else s
  }

  /** `str::trim`: `s` without its leading and trailing whitespace. */
  function Trim(s: string): (r: string)
    ensures r == [] || (!IsWhitespace(r[0]) && !IsWhitespace(r[|r| - 1]))
    ensures |r| <= |s|
    ensures exists i :: Surrounds(s, i, r)
  {
    TrimSurrounds(s);
    TrimEnd(TrimStart(s))
  }

  /** The witness for `Trim`: the trimmed text starts where the leading
      whitespace ends. */
  lemma TrimSurrounds(s: string)
    ensures Surrounds(s, |s| - |TrimStart(s)|, TrimEnd(TrimStart(s)))
  {
    TrimSlice(s);
    TrimTrailing(s);
  }

  lemma TrimSlice(s: string)
    ensures var t := TrimStart(s); var i := |s| - |t|;
      TrimEnd(t) == s[i..i + |TrimEnd(t)|]
  {
    var t := TrimStart(s);
    var i := |s| - |t|;
    assert t == s[i..];
  }

  lemma TrimTrailing(s: string)
    ensures var t := TrimStart(s); var i := |s| - |t|;
      forall k :: i + |TrimEnd(t)| <= k < |s| ==> IsWhitespace(s[k])
  {
    var t := TrimStart(s);
    var i := |s| - |t|;
    forall k | i + |TrimEnd(t)| <= k < |s|
      ensures IsWhitespace(s[k])
    {
      assert s[k] == t[k - i];
    }
  }

  /** `r` occurs in `s` at `i`, with only whitespace before and after it. */
  predicate Surrounds(s: string, i: int, r: string) {
    0 <= i <= |s| - |r| && r == s[i..i + |r|] &&
    (forall k :: 0 <= k < i ==> IsWhitespace(s[k])) &&
    (forall k :: i + |r| <= k < |s| ==> IsWhitespace(s[k]))
  }

  /** `line.trim().is_empty()` holds exactly of lines made of whitespace. */
  lemma TrimEmptyIffBlank(s: string)
    ensures Trim(s) == [] <==> forall k :: 0 <= k < |s| ==> IsWhitespace(s[k])
  {
    var t := TrimStart(s);
    assert t != [] ==> t[0] == s[|s| - |t|];
  }

  predicate StartsWith(s: string, prefix: string) {
    |prefix| <= |s| && s[..|prefix|] == prefix
  }

  /** `str::trim_start_matches`: strips the prefix as many times as it occurs. */
  function TrimStartMatches(s: string, prefix: string): (r: string)
    requires prefix != []
    ensures |r| <= |s| && r == s[|s| - |r|..]
    ensures !StartsWith(r, prefix)
    ensures StartsWith(s, prefix) ==> |r| <= |s| - |prefix|
    ensures Repeats(s[..|s| - |r|], prefix)
    decreases |s|
  {
    if StartsWith(s, prefix) then
      var r := TrimStartMatches(s[|prefix|..], prefix);
      var cut := s[..|s| - |r|];
      assert StartsWith(cut, prefix);
      assert cut[|prefix|..] == s[|prefix|..][..|s| - |prefix| - |r|];
      r
    else
      assert s[..0] == [];
      s
  }

  /** `t` is zero or more copies of `prefix`, one after the other. */
  predicate Repeats(t: string, prefix: string)
    requires prefix != []
    decreases |t|
  {
    t == [] || (StartsWith(t, prefix) && Repeats(t[|prefix|..], prefix))
  }

  // ---------------------------------------------------------------------
  // Splitting the input into lines: `str::lines`
  // ---------------------------------------------------------------------

  /** Index of the first '\n' in `s`, or `|s|` when there is none. */
  function NewlineIndex(s: string): (i: nat)
    ensures i <= |s|
    ensures forall j :: 0 <= j < i ==> s[j] != '\n'
    ensures i < |s| ==> s[i] == '\n'
    decreases |s|
  {
    if s == [] || s[0] == '\n' then 0 else 1 + NewlineIndex(s[1..])
  }

  /** Drops one trailing '\r'. */
  function StripCR(s: string): (r: string)
    ensures s == r || s == r + ['\r']
    ensures |s| > 0 && s[|s| - 1] == '\r' ==> |r| == |s| - 1
  {
    if s != [] && s[|s| - 1] == '\r' then s[..|s| - 1] else s
  }

  /** `str::lines`: splits at '\n', removes a '\r' that precedes a '\n', and
      yields no empty line after a final line break. */
  function Lines(s: string): (r: seq<string>)
    ensures forall k :: 0 <= k < |r| ==> '\n' !in r[k]
    ensures s == [] <==> r == []
    ensures s != [] && '\n' !in s ==> r == [s]
    decreases |s|
  {
    if s == [] then []
    else
      var i := NewlineIndex(s);
      if i == |s| then [s] else [StripCR(s[..i])] + Lines(s[i + 1..])
  }

  /** The text before the first line break is the first line; the lines of
      the rest follow it. */
  lemma LinesAfterBreak(first: string, rest: string)
    requires '\n' !in first
    ensures Lines(first + "\n" + rest) == [StripCR(first)] + Lines(rest)
  {
    var s := first + "\n" + rest;
    assert s[|first|] == '\n';
    NewlineIndexOf(first, "\n" + rest);
    assert first + "\n" + rest == first + ("\n" + rest);
    assert s[..|first|] == first;
    assert s[|first| + 1..] == rest;
  }

  lemma {:induction false} NewlineIndexOf(first: string, rest: string)
    requires '\n' !in first
    requires rest != [] && rest[0] == '\n'
    ensures NewlineIndex(first + rest) == |first|
    decreases |first|
  {
    if first != [] {
      assert (first + rest)[1..] == first[1..] + rest;
      NewlineIndexOf(first[1..], rest);
    }
  }

  // ---------------------------------------------------------------------
  // What the line scanner reads, as functions of its position in the line
  // ---------------------------------------------------------------------

  /** The three escape-aware accumulating loops of the scanner: a plain run,
      the base of an annotation and its reading. */
  datatype Field = PlainRun | Base | Reading

  /** The unescaped characters that end a field. */
  predicate Ends(f: Field, c: char) {
    match f
    case PlainRun => c == '('
    case Base => c == '/' || c == ')'
    case Reading => c == ')'
  }

  /** The text a field collects from `chars[pos]` on, appended to `acc`, up
      to an unescaped character that ends the field or the end of the line,
      and the position where it stops; a `\` contributes the character after
      it, or nothing when it is the last character. */
  function Scan(chars: seq<char>, pos: nat, f: Field, acc: string): (r: (string, nat))
    requires pos <= |chars|
    ensures pos <= r.1 <= |chars|
    ensures pos < |chars| && !Ends(f, chars[pos]) ==> pos < r.1
    decreases |chars| - pos
  {
    if pos == |chars| || Ends(f, chars[pos]) then (acc, pos)
    else if chars[pos] == '\\' then
      if pos + 1 == |chars| then (acc, pos + 1)
      else Scan(chars, pos + 2, f, acc + [chars[pos + 1]])
    else Scan(chars, pos + 1, f, acc + [chars[pos]])
  }

  /** The annotation opened by the parenthesis at `chars[start]`, and the
      position just after it: the base runs to a '/' or ')', a '/' is
      skipped, the reading runs to a ')', and a ')' is skipped. The character
      at `start` is not looked at; from a `start` past the end both fields are
      empty and the position is `start + 1`. */
  function Annot(chars: seq<char>, start: nat): (r: (Segment, nat))
    ensures start < r.1
    ensures start < |chars| ==> r.1 <= |chars|
    ensures start >= |chars| ==> r == (Annotated("", ""), start + 1)
    ensures r.0.Annotated?
  {
    if start >= |chars| then (Annotated("", ""), start + 1)
    else
    var b := Scan(chars, start + 1, Base, "");
    var p := if b.1 < |chars| && chars[b.1] == '/' then b.1 + 1 else b.1;
    var rd := Scan(chars, p, Reading, "");
    var e := if rd.1 < |chars| && chars[rd.1] == ')' then rd.1 + 1 else rd.1;
    (Annotated(b.0, rd.0), e)
  }

  /** The segments of a line from `chars[pos]` on, appended to `acc`. */
  function SegsFrom(chars: seq<char>, pos: nat, acc: seq<Segment>): seq<Segment>
    requires pos <= |chars|
    decreases |chars| - pos
  {
    if pos == |chars| then acc
    else if chars[pos] == '\\' then
      if pos + 1 == |chars| then acc + [Plain("")]
      else SegsFrom(chars, pos + 2, acc + [Plain([chars[pos + 1]])])
    else if chars[pos] == '(' then
      var a := Annot(chars, pos);
      SegsFrom(chars, a.1, acc + [a.0])
    else
      var p := Scan(chars, pos, PlainRun, "");
      SegsFrom(chars, p.1, if p.0 == [] then acc else acc + [Plain(p.0)])
  }

  /** The segments of a whole line. */
  function Segs(line: string): seq<Segment> {
    SegsFrom(line, 0, [])
  }

  /** The title taken from the first line: empty unless the line starts with
      `#title`; otherwise what is left after every leading `#title` and the
      surrounding whitespace are removed. */
  function TitleOf(line: string): (r: string)
    ensures !StartsWith(line, "#title") ==> r == ""
    ensures r == [] || (!IsWhitespace(r[0]) && !IsWhitespace(r[|r| - 1]))
    ensures StartsWith(line, "#title") ==> |r| <= |line| - 6
  {
    if StartsWith(line, "#title") then Trim(TrimStartMatches(line, "#title")) else ""
  }

  /** The lines `ls[i..]`, parsed, blank ones dropped, appended to `acc`. */
  function ParsedFrom(ls: seq<string>, i: nat, acc: seq<Line>): seq<Line>
    requires i <= |ls|
    decreases |ls| - i
  {
    if i == |ls| then acc
    else ParsedFrom(ls, i + 1, if Trim(ls[i]) == [] then acc else acc + [Line(Segs(ls[i]))])
  }

  /** The lines after the first, parsed, blank ones dropped. */
  function ParsedLines(ls: seq<string>): seq<Line> {
    ParsedFrom(ls, 0, [])
  }

  /** What `parse_problem` returns for `input`. */
  function Problem(input: string): Content {
    var ls := Lines(input);
    if ls == [] then Content("", [])
    else Content(TitleOf(ls[0]), ParsedLines(ls[1..]))
  }

  // ---------------------------------------------------------------------
  // The parser itself
  // ---------------------------------------------------------------------

  /** `parse_problem`: the title from the first line, then one `Line` per
      non-blank later line. */
  method ParseProblem(input: string) returns (content: Content)
    ensures content == Problem(input)
  {
    var ls := Lines(input);
    var titleLine := if ls == [] then "" else ls[0];
    var rest := if ls == [] then [] else ls[1..];
    var title := TitleOf(titleLine);
    var lines: seq<Line> := [];
    for i := 0 to |rest|
      invariant ParsedFrom(rest, i, lines) == ParsedLines(rest)
    {
      var line := rest[i];
      if Trim(line) == [] {
        continue;
      }
      var segments := ParseLine(line);
      lines := lines + [Line(segments)];
    }
    content := Content(title, lines);
  }

  /** `parse_line`: the segments of one line. */
  method ParseLine(line: string) returns (segments: seq<Segment>)
    ensures segments == Segs(line)
  {
    segments := [];
    var chars := line;
    var pos := 0;
    while pos < |chars|
      invariant 0 <= pos <= |chars|
      invariant SegsFrom(chars, pos, segments) == Segs(chars)
      decreases |chars| - pos
    {
      ghost var at := pos;
      if chars[pos] == '\\' {
        // an escape at the start of a segment is a segment of its own
        var literal := "";
        pos := pos + 1;
        if pos < |chars| {
          literal := literal + [chars[pos]];
          pos := pos + 1;
          assert literal == [chars[at + 1]];
        }
        segments := segments + [Plain(literal)];
      } else if chars[pos] == '(' {
        var annotated, newPos := ParseAnnotated(chars, pos);
        segments := segments + [annotated];
        pos := newPos;
      } else {
        var plain := "";
        ghost var run := Scan(chars, pos, PlainRun, "");
        while pos < |chars| && chars[pos] != '('
          invariant pos <= |chars|
          invariant Scan(chars, pos, PlainRun, plain) == run
          decreases |chars| - pos
        {
          if chars[pos] == '\\' {
            pos := pos + 1;
            if pos < |chars| {
              plain := plain + [chars[pos]];
              pos := pos + 1;
            }
          } else {
            plain := plain + [chars[pos]];
            pos := pos + 1;
          }
        }
        if plain != [] {
          segments := segments + [Plain(plain)];
        }
      }
    }
  }

  /** `parse_annotated`: the annotation opened at `chars[start]`, and the
      position just after it, which is always further on, and within the
      line when `start` is. */
  method ParseAnnotated(chars: seq<char>, start: nat) returns (seg: Segment, newPos: nat)
    ensures start < newPos
    ensures start < |chars| ==> newPos <= |chars|
    ensures (seg, newPos) == Annot(chars, start)
  {
    var pos := start + 1;
    ghost var b := if start < |chars| then Scan(chars, pos, Base, "") else ("", pos);
    var base := "";
    while pos < |chars| && chars[pos] != '/'
      invariant start < |chars| ==> pos <= |chars|
      invariant start < |chars| ==> Scan(chars, pos, Base, base) == b
      invariant start >= |chars| ==> pos == start + 1 && base == ""
      decreases |chars| - pos
    {
      if chars[pos] == '\\' {
        pos := pos + 1;
        if pos < |chars| {
          base := base + [chars[pos]];
          pos := pos + 1;
        }
      } else {
        if chars[pos] == ')' {
          break;
        }
        base := base + [chars[pos]];
        pos := pos + 1;
      }
    }
    if pos < |chars| && chars[pos] == '/' {
      pos := pos + 1;
    }
    ghost var rd := if start < |chars| then Scan(chars, pos, Reading, "") else ("", pos);
    var reading := "";
    while pos < |chars| && chars[pos] != ')'
      invariant start < |chars| ==> pos <= |chars|
      invariant start < |chars| ==> Scan(chars, pos, Reading, reading) == rd
      invariant start >= |chars| ==> pos == start + 1 && reading == ""
      decreases |chars| - pos
    {
      if chars[pos] == '\\' {
        pos := pos + 1;
        if pos < |chars| {
          reading := reading + [chars[pos]];
          pos := pos + 1;
        }
      } else {
        reading := reading + [chars[pos]];
        pos := pos + 1;
      }
    }
    if pos < |chars| && chars[pos] == ')' {
      pos := pos + 1;
    }
    seg := Annotated(base, reading);
    newPos := pos;
  }

  // ---------------------------------------------------------------------
  // The scanner reads only what lies ahead of it
  // ---------------------------------------------------------------------

  /** What a field collects is appended to the accumulator it starts with. */
  lemma {:induction false} ScanPrefix(chars: seq<char>, pos: nat, f: Field, acc: string)
    requires pos <= |chars|
    ensures Scan(chars, pos, f, acc) == (acc + Scan(chars, pos, f, "").0, Scan(chars, pos, f, "").1)
    decreases |chars| - pos
  {
    if pos == |chars| || Ends(f, chars[pos]) {
      AppendEmpty(acc);
    } else if chars[pos] == '\\' {
      if pos + 1 < |chars| {
        var c := chars[pos + 1];
        ScanPrefix(chars, pos + 2, f, acc + [c]);
        ScanPrefix(chars, pos + 2, f, [c]);
        AppendEmpty([c]);
        AppendAssoc(acc, [c], Scan(chars, pos + 2, f, "").0);
      } else {
        AppendEmpty(acc);
      }
    } else {
      var c := chars[pos];
      ScanPrefix(chars, pos + 1, f, acc + [c]);
      ScanPrefix(chars, pos + 1, f, [c]);
      AppendEmpty([c]);
      AppendAssoc(acc, [c], Scan(chars, pos + 1, f, "").0);
    }
  }

  /** A plain run begins with a character it keeps, so it is never empty. */
  lemma PlainRunNonEmpty(chars: seq<char>, pos: nat)
    requires pos < |chars| && chars[pos] != '(' && chars[pos] != '\\'
    ensures Scan(chars, pos, PlainRun, "").0 != []
  {
    ScanPrefix(chars, pos + 1, PlainRun, [chars[pos]]);
    AppendEmpty([chars[pos]]);
  }

  /** Text placed before a line does not change how a field reads it. */
  lemma {:induction false} ScanShift(pre: string, s: string, pos: nat, f: Field, acc: string)
    requires pos <= |s|
    ensures Scan(pre + s, |pre| + pos, f, acc) == (Scan(s, pos, f, acc).0, |pre| + Scan(s, pos, f, acc).1)
    decreases |s| - pos
  {
    var c := pre + s;
    if pos < |s| {
      assert c[|pre| + pos] == s[pos];
      if !Ends(f, s[pos]) {
        if s[pos] == '\\' {
          if pos + 1 < |s| {
            assert c[|pre| + pos + 1] == s[pos + 1];
            ScanShift(pre, s, pos + 2, f, acc + [s[pos + 1]]);
          }
        } else {
          ScanShift(pre, s, pos + 1, f, acc + [s[pos]]);
        }
      }
    }
  }

  /** Text placed before a line does not change how an annotation reads. */
  lemma AnnotShift(pre: string, s: string, i: nat)
    requires i < |s|
    ensures Annot(pre + s, |pre| + i) == (Annot(s, i).0, |pre| + Annot(s, i).1)
  {
    var c := pre + s;
    ScanShift(pre, s, i + 1, Base, "");
    var b := Scan(s, i + 1, Base, "").1;
    if b < |s| {
      assert c[|pre| + b] == s[b];
    }
    var p := if b < |s| && s[b] == '/' then b + 1 else b;
    ScanShift(pre, s, p, Reading, "");
    var r := Scan(s, p, Reading, "").1;
    if r < |s| {
      assert c[|pre| + r] == s[r];
    }
  }

  /** The segments found are appended to the accumulator they start with. */
  lemma {:induction false} SegsPrefix(chars: seq<char>, pos: nat, acc: seq<Segment>)
    requires pos <= |chars|
    ensures SegsFrom(chars, pos, acc) == acc + SegsFrom(chars, pos, [])
    decreases |chars| - pos
  {
    if pos == |chars| {
      AppendEmpty(acc);
    } else if chars[pos] == '\\' {
      if pos + 1 < |chars| {
        var s := Plain([chars[pos + 1]]);
        SegsPrefix(chars, pos + 2, acc + [s]);
        SegsPrefix(chars, pos + 2, [s]);
        AppendEmpty([s]);
        AppendAssoc(acc, [s], SegsFrom(chars, pos + 2, []));
      } else {
        AppendEmpty([Plain("")]);
      }
    } else if chars[pos] == '(' {
      var a := Annot(chars, pos);
      SegsPrefix(chars, a.1, acc + [a.0]);
      SegsPrefix(chars, a.1, [a.0]);
      AppendEmpty([a.0]);
      AppendAssoc(acc, [a.0], SegsFrom(chars, a.1, []));
    } else {
      var p := Scan(chars, pos, PlainRun, "");
      PlainRunNonEmpty(chars, pos);
      SegsPrefix(chars, p.1, acc + [Plain(p.0)]);
      SegsPrefix(chars, p.1, [Plain(p.0)]);
      AppendEmpty([Plain(p.0)]);
      AppendAssoc(acc, [Plain(p.0)], SegsFrom(chars, p.1, []));
    }
  }

  /** Text placed before a line does not change its segments. */
  lemma {:induction false} SegsShift(pre: string, s: string, pos: nat, acc: seq<Segment>)
    requires pos <= |s|
    ensures SegsFrom(pre + s, |pre| + pos, acc) == SegsFrom(s, pos, acc)
    decreases |s| - pos
  {
    var c := pre + s;
    if pos < |s| {
      assert c[|pre| + pos] == s[pos];
      if s[pos] == '\\' {
        if pos + 1 < |s| {
          assert c[|pre| + pos + 1] == s[pos + 1];
          SegsShift(pre, s, pos + 2, acc + [Plain([s[pos + 1]])]);
        }
      } else if s[pos] == '(' {
        AnnotShift(pre, s, pos);
        SegsShift(pre, s, Annot(s, pos).1, acc + [Annot(s, pos).0]);
      } else {
        ScanShift(pre, s, pos, PlainRun, "");
        var t := Scan(s, pos, PlainRun, "");
        SegsShift(pre, s, t.1, if t.0 == [] then acc else acc + [Plain(t.0)]);
      }
    }
  }

  /** Scanning resumes where the previous segment ended: the segments after
      position `pos` are those of the rest of the line read on its own. */
  lemma SegsResume(line: string, pos: nat)
    requires pos <= |line|
    ensures SegsFrom(line, pos, []) == Segs(line[pos..])
  {
    assert line == line[..pos] + line[pos..];
    SegsShift(line[..pos], line[pos..], 0, []);
  }

  // ---------------------------------------------------------------------
  // Writing segments as markup, and reading them back
  // ---------------------------------------------------------------------

  /** Characters that must be written after a `\` inside a field. */
  predicate NeedsEscape(f: Field, c: char) {
    c == '\\' || Ends(f, c)
  }

  /** `t` written so that the field `f` reads it back. */
  function Escaped(t: string, f: Field): string {
    if t == [] then []
    else (if NeedsEscape(f, t[0]) then ['\\', t[0]] else [t[0]]) + Escaped(t[1..], f)
  }

  /** One segment in the markup. */
  function SegmentMarkup(s: Segment): string {
    match s
    case Plain(t) => Escaped(t, PlainRun)
    case Annotated(b, r) => "(" + Escaped(b, Base) + "/" + Escaped(r, Reading) + ")"
  }

  /** A line in the markup. */
  function Markup(segs: seq<Segment>): string {
    if segs == [] then [] else SegmentMarkup(segs[0]) + Markup(segs[1..])
  }

  /** The segment lists the markup expresses one segment at a time: no plain
      text is empty or starts with `(` or `\`, and no plain text is followed
      directly by another (the two would be read as one run). */
  predicate Expressible(segs: seq<Segment>) {
    forall k :: 0 <= k < |segs| && segs[k].Plain? ==>
      segs[k].text != [] && !NeedsEscape(PlainRun, segs[k].text[0]) &&
      (k + 1 < |segs| ==> segs[k + 1].Annotated?)
  }

  /** Text with nothing to escape is written as it is. */
  lemma {:induction false} EscapedVerbatim(t: string, f: Field)
    requires forall k :: 0 <= k < |t| ==> !NeedsEscape(f, t[k])
    ensures Escaped(t, f) == t
    decreases |t|
  {
    if t != [] {
      EscapedVerbatim(t[1..], f);
    }
  }

  /** A field reads back exactly the text escaped for it, and stops right
      after it when an unescaped end character or the end of the line follows. */
  lemma {:induction false} ScanEscaped(t: string, post: string, f: Field, acc: string)
    requires post == [] || Ends(f, post[0])
    ensures Scan(Escaped(t, f) + post, 0, f, acc) == (acc + t, |Escaped(t, f)|)
    decreases |t|
  {
    if t == [] {
      AppendEmpty(acc);
      AppendEmpty(post);
    } else {
      var h := if NeedsEscape(f, t[0]) then ['\\', t[0]] else [t[0]];
      var tail := Escaped(t[1..], f) + post;
      AppendAssoc(h, Escaped(t[1..], f), post);
      ScanShift(h, tail, 0, f, acc + [t[0]]);
      ScanEscaped(t[1..], post, f, acc + [t[0]]);
      HeadTail(t);
      AppendAssoc(acc, [t[0]], t[1..]);
    }
  }

  /** `ScanEscaped` for a field that starts after a prefix. */
  lemma ReadsEscaped(pre: string, t: string, post: string, f: Field)
    requires post == [] || Ends(f, post[0])
    ensures Scan(pre + (Escaped(t, f) + post), |pre|, f, "") == (t, |pre| + |Escaped(t, f)|)
  {
    ScanShift(pre, Escaped(t, f) + post, 0, f, "");
    ScanEscaped(t, post, f, "");
    AppendEmpty(t);
  }

  /** An annotation whose base field stops at a `/` and whose reading field
      stops at a `)`. */
  lemma AnnotParts(chars: string, start: nat, b: string, x: nat, r: string, y: nat)
    requires start < |chars|
    requires Scan(chars, start + 1, Base, "") == (b, x) && x < |chars| && chars[x] == '/'
    requires Scan(chars, x + 1, Reading, "") == (r, y) && y < |chars| && chars[y] == ')'
    ensures Annot(chars, start) == (Annotated(b, r), y + 1)
  {
  }

  /** `(b/r)` with `b` and `r` escaped reads as `Annotated(b, r)`, and
      scanning goes on right after the `)`. */
  lemma AnnotMarkup(b: string, r: string, post: string)
    ensures Annot(SegmentMarkup(Annotated(b, r)) + post, 0)
         == (Annotated(b, r), |SegmentMarkup(Annotated(b, r))|)
  {
    var eb, er := Escaped(b, Base), Escaped(r, Reading);
    var m := SegmentMarkup(Annotated(b, r));
    assert m == "(" + eb + "/" + er + ")";
    AnnotMarkupParts(b, r, eb, er, post);
  }

  /** `AnnotMarkup` with the escaped fields named. */
  lemma AnnotMarkupParts(b: string, r: string, eb: string, er: string, post: string)
    requires eb == Escaped(b, Base) && er == Escaped(r, Reading)
    ensures Annot("(" + eb + "/" + er + ")" + post, 0) == (Annotated(b, r), 3 + |eb| + |er|)
  {
    var chars := "(" + eb + "/" + er + ")" + post;
    var a, w := "(" + eb, "/" + er + ")" + post;
    AppendAssoc(a, "/", er);
    AppendAssoc(a, "/" + er, ")");
    AppendAssoc(a, "/" + er + ")", post);
    AppendAssoc("(", eb, w);
    ReadsEscaped("(", b, w, Base);
    var p := a + "/";
    AppendAssoc(p + er, ")", post);
    AppendAssoc(p, er, ")" + post);
    ReadsEscaped(p, r, ")" + post, Reading);
    AnnotParts(chars, 0, b, 1 + |eb|, r, 2 + |eb| + |er|);
  }

  /** `(b)` without a `/` reads as an annotation with an empty reading. */
  lemma AnnotWithoutSlash(b: string, post: string)
    ensures Annot("(" + Escaped(b, Base) + ")" + post, 0)
         == (Annotated(b, ""), |Escaped(b, Base)| + 2)
  {
    var eb := Escaped(b, Base);
    var chars := "(" + eb + ")" + post;
    AppendAssoc("(" + eb, ")", post);
    AppendAssoc("(", eb, ")" + post);
    ReadsEscaped("(", b, ")" + post, Base);
    assert chars[1 + |eb|] == ')';
  }

  /** An annotation left open takes the rest of the line: up to the first
      unescaped `/` as its base and all the rest as its reading. */
  lemma AnnotUnclosed(b: string, r: string)
    ensures Annot("(" + Escaped(b, Base) + "/" + Escaped(r, Reading), 0)
         == (Annotated(b, r), |Escaped(b, Base)| + |Escaped(r, Reading)| + 2)
  {
    AnnotUnclosedParts(b, r, Escaped(b, Base), Escaped(r, Reading));
  }

  /** `AnnotUnclosed` with the escaped fields named. */
  lemma AnnotUnclosedParts(b: string, r: string, eb: string, er: string)
    requires eb == Escaped(b, Base) && er == Escaped(r, Reading)
    ensures Annot("(" + eb + "/" + er, 0) == (Annotated(b, r), |eb| + |er| + 2)
  {
    var chars := "(" + eb + "/" + er;
    AppendAssoc("(" + eb, "/", er);
    AppendAssoc("(", eb, "/" + er);
    ReadsEscaped("(", b, "/" + er, Base);
    AppendEmpty(er);
    ReadsEscaped("(" + eb + "/", r, "", Reading);
    AnnotOpenParts(chars, 0, b, 1 + |eb|, r);
  }

  /** An annotation whose base field stops at a `/` and whose reading field
      runs to the end of the line. */
  lemma AnnotOpenParts(chars: string, start: nat, b: string, x: nat, r: string)
    requires start < |chars|
    requires Scan(chars, start + 1, Base, "") == (b, x) && x < |chars| && chars[x] == '/'
    requires Scan(chars, x + 1, Reading, "") == (r, |chars|)
    ensures Annot(chars, start) == (Annotated(b, r), |chars|)
  {
  }

  /** An annotation left open without a `/` takes the rest of the line as its
      base. */
  lemma AnnotUnclosedWithoutSlash(b: string)
    ensures Annot("(" + Escaped(b, Base), 0) == (Annotated(b, ""), |Escaped(b, Base)| + 1)
  {
    AppendEmpty(Escaped(b, Base));
    ReadsEscaped("(", b, "", Base);
  }

  /** One segment written in the markup is read back as that segment, and
      reading goes on right after it. */
  lemma SegmentStep(s: Segment, rest: string, acc: seq<Segment>)
    requires s.Plain? ==> s.text != [] && !NeedsEscape(PlainRun, s.text[0])
    requires s.Plain? ==> rest == [] || rest[0] == '('
    ensures SegsFrom(SegmentMarkup(s) + rest, 0, acc) == SegsFrom(rest, 0, acc + [s])
  {
    var m := SegmentMarkup(s);
    var chars := m + rest;
    match s
    case Plain(t) =>
      assert m == [t[0]] + Escaped(t[1..], PlainRun);
      assert chars[0] == t[0];
      ScanEscaped(t, rest, PlainRun, "");
      AppendEmpty(t);
      SegsShift(m, rest, 0, acc + [s]);
    case Annotated(b, r) =>
      AnnotMarkup(b, r, rest);
      assert chars[0] == '(';
      SegsShift(m, rest, 0, acc + [s]);
  }

  /** The markup of segments that start with an annotation starts with `(`. */
  lemma MarkupStartsWithAnnotation(segs: seq<Segment>)
    requires segs != [] && segs[0].Annotated?
    ensures Markup(segs) != [] && Markup(segs)[0] == '('
  {
    var m := SegmentMarkup(segs[0]);
    assert m[0] == '(';
    assert Markup(segs) == m + Markup(segs[1..]);
  }

  /** What `SegmentStep` asks of the first of some expressible segments, and
      that the others are expressible too. */
  lemma ExpressibleHead(segs: seq<Segment>)
    requires segs != [] && Expressible(segs)
    ensures segs[0].Plain? ==> segs[0].text != [] && !NeedsEscape(PlainRun, segs[0].text[0])
    ensures segs[0].Plain? ==> Markup(segs[1..]) == [] || Markup(segs[1..])[0] == '('
    ensures Expressible(segs[1..])
  {
    if segs[0].Plain? && |segs| > 1 {
      assert segs[1..][0] == segs[1];
      MarkupStartsWithAnnotation(segs[1..]);
    }
    forall k | 0 <= k < |segs| - 1 ensures segs[1..][k] == segs[k + 1] { }
  }

  /** Reading the markup of expressible segments gives them back, and
      reading goes on with the text after it; a final plain text must be
      followed by the end of the line or a `(`, or it would run on. */
  lemma {:induction false} SegsMarkupThen(segs: seq<Segment>, rest: string, acc: seq<Segment>)
    requires Expressible(segs)
    requires segs != [] && segs[|segs| - 1].Plain? ==> rest == [] || rest[0] == '('
    ensures SegsFrom(Markup(segs) + rest, 0, acc) == SegsFrom(rest, 0, acc + segs)
    decreases |segs|
  {
    if segs == [] {
      AppendEmpty(acc);
      AppendEmpty(rest);
    } else {
      ExpressibleHead(segs);
      var tail := segs[1..];
      if tail != [] {
        assert tail[|tail| - 1] == segs[|segs| - 1];
      }
      SegsMarkupThen(tail, rest, acc + [segs[0]]);
      HeadTail(segs);
      AppendAssoc(acc, [segs[0]], tail);
      if segs[0].Plain? {
        if tail == [] {
          AppendEmpty(rest);
        } else {
          assert (Markup(tail) + rest)[0] == Markup(tail)[0];
        }
      }
      SegsMarkupStep(segs[0], tail, rest, acc);
    }
  }

  /** The inductive step of `SegsMarkupThen`: the first segment is read back,
      and the rest of the markup reads as the rest of the segments. */
  lemma SegsMarkupStep(s: Segment, tail: seq<Segment>, rest: string, acc: seq<Segment>)
    requires s.Plain? ==> s.text != [] && !NeedsEscape(PlainRun, s.text[0])
    requires s.Plain? ==> Markup(tail) + rest == [] || (Markup(tail) + rest)[0] == '('
    requires SegsFrom(Markup(tail) + rest, 0, acc + [s]) == SegsFrom(rest, 0, acc + ([s] + tail))
    ensures SegsFrom(Markup([s] + tail) + rest, 0, acc) == SegsFrom(rest, 0, acc + ([s] + tail))
  {
    MarkupCons(s, tail);
    AppendAssoc(SegmentMarkup(s), Markup(tail), rest);
    SegmentStep(s, Markup(tail) + rest, acc);
  }

  lemma MarkupCons(s: Segment, tail: seq<Segment>)
    ensures Markup([s] + tail) == SegmentMarkup(s) + Markup(tail)
  {
    assert ([s] + tail)[1..] == tail;
  }

  /** The empty sequence is a unit of concatenation. */
  lemma AppendEmpty<T>(a: seq<T>)
    ensures a + [] == a && [] + a == a
  {
  }

  /** A sequence that is not empty is its head followed by its tail. */
  lemma HeadTail<T>(a: seq<T>)
    requires a != []
    ensures a == [a[0]] + a[1..]
  {
  }

  /** Concatenation is associative. */
  lemma AppendAssoc<T>(a: seq<T>, b: seq<T>, c: seq<T>)
    ensures a + b + c == a + (b + c)
  {
  }

  /** The markup writer is a right inverse of the line parser. */
  lemma MarkupRoundTrip(segs: seq<Segment>)
    requires Expressible(segs)
    ensures Segs(Markup(segs)) == segs
  {
    SegsMarkupThen(segs, [], []);
    AppendEmpty(Markup(segs));
    AppendEmpty(segs);
  }

  /** A `\` that starts a segment at the end of a line gives an empty plain
      segment after the segments before it. */
  lemma TrailingBackslash(segs: seq<Segment>)
    requires Expressible(segs)
    requires segs == [] || segs[|segs| - 1].Annotated?
    ensures Segs(Markup(segs) + "\\") == segs + [Plain("")]
  {
    SegsMarkupThen(segs, "\\", []);
    AppendEmpty(segs);
  }

  /** A line without `(` or `\` is one plain segment: `/` and `)` outside
      an annotation are ordinary text. */
  lemma PlainLine(line: string)
    requires line != [] && '(' !in line && '\\' !in line
    ensures Segs(line) == [Plain(line)]
  {
    EscapedVerbatim(line, PlainRun);
    assert line[0] in line;
    SegmentStep(Plain(line), [], []);
    assert line + [] == line;
  }

  /** An annotation at the start of a line is its first segment, and the
      segments after it are those of the text after the `)`. */
  lemma AnnotationThenRest(b: string, r: string, rest: string)
    ensures Segs(SegmentMarkup(Annotated(b, r)) + rest) == [Annotated(b, r)] + Segs(rest)
  {
    SegmentStep(Annotated(b, r), rest, []);
    AppendEmpty([Annotated(b, r)]);
    SegsPrefix(rest, 0, [Annotated(b, r)]);
  }

  /** A `\` at the start of a segment makes the next character, whatever it
      is, a one-character plain segment of its own. */
  lemma EscapeStartsSegment(c: char, rest: string)
    ensures Segs(['\\', c] + rest) == [Plain([c])] + Segs(rest)
  {
    var chars := ['\\', c] + rest;
    assert chars[1] == c && [] + [Plain([c])] == [Plain([c])];
    SegsPrefix(chars, 2, [Plain([c])]);
    assert chars[2..] == rest;
    SegsResume(chars, 2);
  }

  /** No segment of `r` is an empty plain text, except possibly the last one
      when `chars` ends with a `\`. */
  predicate EmptyPlainLastOnly(r: seq<Segment>, chars: seq<char>) {
    forall k :: 0 <= k < |r| && r[k] == Plain("") ==> k == |r| - 1 && chars != [] && chars[|chars| - 1] == '\\'
  }

  /** The only empty plain segment comes from a `\` that ends the line, and
      it is the last segment. */
  lemma {:induction false} EmptyPlainOnlyAtEnd(chars: seq<char>, pos: nat, acc: seq<Segment>)
    requires pos <= |chars|
    requires Plain("") !in acc
    ensures EmptyPlainLastOnly(SegsFrom(chars, pos, acc), chars)
    decreases |chars| - pos
  {
    if pos == |chars| {
    } else if chars[pos] == '\\' {
      if pos + 1 < |chars| {
        var s := Plain([chars[pos + 1]]);
        assert s != Plain("");
        assert SegsFrom(chars, pos, acc) == SegsFrom(chars, pos + 2, acc + [s]);
        EmptyPlainOnlyAtEnd(chars, pos + 2, acc + [s]);
      } else {
        var r := acc + [Plain("")];
        assert forall k :: 0 <= k < |r| - 1 ==> r[k] == acc[k];
      }
    } else if chars[pos] == '(' {
      var a := Annot(chars, pos);
      EmptyPlainOnlyAtEnd(chars, a.1, acc + [a.0]);
    } else {
      var p := Scan(chars, pos, PlainRun, "");
      PlainRunNonEmpty(chars, pos);
      EmptyPlainOnlyAtEnd(chars, p.1, acc + [Plain(p.0)]);
    }
  }

  /** A line that is not empty has at least one segment. */
  lemma SegsNonEmpty(line: string)
    requires line != []
    ensures Segs(line) != []
  {
    if line[0] == '\\' {
      if |line| > 1 {
        AppendEmpty([Plain([line[1]])]);
        SegsPrefix(line, 2, [Plain([line[1]])]);
      }
    } else if line[0] == '(' {
      AppendEmpty([Annot(line, 0).0]);
      SegsPrefix(line, Annot(line, 0).1, [Annot(line, 0).0]);
    } else {
      PlainRunNonEmpty(line, 0);
      var p := Scan(line, 0, PlainRun, "");
      AppendEmpty([Plain(p.0)]);
      SegsPrefix(line, p.1, [Plain(p.0)]);
    }
  }

  // ---------------------------------------------------------------------
  // Lines, title and the whole text
  // ---------------------------------------------------------------------

  /** A title line is read as the text after `#title`, trimmed. */
  lemma TitleAfterTag(t: string)
    requires !StartsWith(t, "#title")
    ensures TitleOf("#title" + t) == Trim(t)
  {
    var line := "#title" + t;
    assert line[..6] == "#title";
    assert line[6..] == t;
    assert TrimStartMatches(t, "#title") == t;
    assert TrimStartMatches(line, "#title") == TrimStartMatches(t, "#title");
  }

  /** Every leading `#title` is stripped, not only the first. */
  lemma TitleTagRepeated(t: string)
    requires StartsWith(t, "#title")
    ensures TitleOf("#title" + t) == TitleOf(t)
  {
    var line := "#title" + t;
    assert line[..6] == "#title";
    assert line[6..] == t;
  }

  /** The lines found are appended to the accumulator they start with. */
  lemma {:induction false} ParsedPrefix(ls: seq<string>, i: nat, acc: seq<Line>)
    requires i <= |ls|
    ensures ParsedFrom(ls, i, acc) == acc + ParsedFrom(ls, i, [])
    decreases |ls| - i
  {
    if i < |ls| && Trim(ls[i]) != [] {
      var l := Line(Segs(ls[i]));
      ParsedPrefix(ls, i + 1, acc + [l]);
      ParsedPrefix(ls, i + 1, [l]);
      AppendEmpty([l]);
      AppendAssoc(acc, [l], ParsedFrom(ls, i + 1, []));
    } else if i < |ls| {
      ParsedPrefix(ls, i + 1, acc);
    }
  }

  /** Only the lines from `i` on matter. */
  lemma {:induction false} ParsedLocal(l1: seq<string>, i: nat, l2: seq<string>, j: nat, acc: seq<Line>)
    requires i <= |l1| && j <= |l2| && l1[i..] == l2[j..]
    ensures ParsedFrom(l1, i, acc) == ParsedFrom(l2, j, acc)
    decreases |l1| - i
  {
    assert |l1| - i == |l2| - j;
    if i < |l1| {
      assert l1[i] == l1[i..][0] && l2[j] == l2[j..][0];
      assert l1[i + 1..] == l1[i..][1..] && l2[j + 1..] == l2[j..][1..];
      ParsedLocal(l1, i + 1, l2, j + 1, if Trim(l1[i]) == [] then acc else acc + [Line(Segs(l1[i]))]);
    }
  }

  /** Blank lines are dropped; every other line gives exactly one `Line`,
      in the order of the input. */
  lemma ParsedLinesCons(l: string, ls: seq<string>)
    ensures ParsedLines([l] + ls)
         == (if Trim(l) == [] then [] else [Line(Segs(l))]) + ParsedLines(ls)
  {
    var all := [l] + ls;
    var h: seq<Line> := if Trim(l) == [] then [] else [Line(Segs(l))];
    assert all[0] == l;
    assert ParsedFrom(all, 0, []) == ParsedFrom(all, 1, h) by {
      AppendEmpty([Line(Segs(l))]);
    }
    ParsedPrefix(all, 1, h);
    assert all[1..] == ls;
    ParsedLocal(all, 1, ls, 0, []);
  }

  /** Every parsed line has at least one segment. */
  lemma {:induction false} ParsedLinesNonEmpty(ls: seq<string>, i: nat, acc: seq<Line>)
    requires i <= |ls|
    requires forall k :: 0 <= k < |acc| ==> acc[k].segments != []
    ensures forall k :: 0 <= k < |ParsedFrom(ls, i, acc)| ==> ParsedFrom(ls, i, acc)[k].segments != []
    decreases |ls| - i
  {
    if i < |ls| {
      if Trim(ls[i]) != [] {
        SegsNonEmpty(ls[i]);
        ParsedLinesNonEmpty(ls, i + 1, acc + [Line(Segs(ls[i]))]);
      } else {
        ParsedLinesNonEmpty(ls, i + 1, acc);
      }
    }
  }

  /** The first line only ever gives the title: the lines come from the text
      after the first line break, whether or not the first line is a title. */
  lemma FirstLineIsConsumed(first: string, rest: string)
    requires '\n' !in first
    ensures Problem(first + "\n" + rest) == Content(TitleOf(StripCR(first)), ParsedLines(Lines(rest)))
  {
    LinesAfterBreak(first, rest);
    assert ([StripCR(first)] + Lines(rest))[1..] == Lines(rest);
  }

  /** A text of one line has a title at most and no lines. */
  lemma SingleLine(line: string)
    requires line != [] && '\n' !in line
    ensures Problem(line) == Content(TitleOf(line), [])
  {
    assert NewlineIndex(line) == |line|;
  }
}
