/** The lines of a configuration file: what parse_config_file makes of one, and the grammar that
    this amounts to. */
module ConfigLines {
  import opened Sequences
  import opened Wrappers

  /** struct opt */
  datatype Opt = Opt(name: string, val: string)

  /** A section of the file with its options in file order. */
  datatype Section = Section(name: string, opts: seq<Opt>)

  // ----- white space

  predicate IsSpace(c: char) {
    c == ' ' || c == '\t' || c == '\n' || c == '\r' || c == 0x0b as char || c == 0x0c as char
  }

  predicate AllSpace(s: string) {
    forall i :: 0 <= i < |s| ==> IsSpace(s[i])
  }

  function StripLeft(s: string): string {
    if |s| > 0 && IsSpace(s[0]) then StripLeft(s[1..]) else s
  }

  function StripRight(s: string): string {
    if |s| > 0 && IsSpace(s[|s| - 1]) then StripRight(s[..|s| - 1]) else s
  }

  /** The text without leading and trailing white space. */
  function Strip(s: string): string {
    StripRight(StripLeft(s))
  }

  // ----- one line

  datatype Line = Blank | HeaderLine(name: string) | OptionLine(name: string, val: string) | BadLine

  /** What a line of the file says. */
  function Classify(line: string): Line {
    IndexOfMeaning(line, '#');
    var text := line[..IndexOf(line, '#')];
    var s := Strip(text);
    IndexOfMeaning(s, ']');
    IndexOfMeaning(text, '=');
    var (close, eq) := (IndexOf(s, ']'), IndexOf(text, '='));
    if |s| > 0 && s[0] == '[' then
      if close == |s| || !AllSpace(s[close + 1..]) then BadLine
      else HeaderLine(s[1..close])
    else if eq < |text| then OptionLine(Strip(text[..eq]), Strip(text[eq + 1..]))
    else if AllSpace(s) then Blank
    else BadLine
  }

  /** One more line: a header starts a section, an option goes to the last section, or to
      a new global one at the start of the file; None where the source exits. */
  function AddLine(secs: seq<Section>, line: Line): Option<seq<Section>> {
    match line
    case Blank => Some(secs)
    case HeaderLine(name) => Some(secs + [Section(name, [])])
    case OptionLine(name, val) =>
      var open := if |secs| == 0 then [Section("global", [])] else secs;
      var last := open[|open| - 1];
      Some(open[..|open| - 1] + [last.(opts := last.opts + [Opt(name, val)])])
    case BadLine => None
  }

  // ----- the grammar

  /** No white space at the ends. */
  predicate Trimmed(s: string) {
    |s| > 0 ==> !IsSpace(s[0]) && !IsSpace(s[|s| - 1])
  }

  /** The end of a line: nothing, or a comment. */
  predicate IsComment(s: string) {
    |s| > 0 ==> s[0] == '#'
  }

  /** isspace in the C locale */
  lemma SpaceCodes(c: char)
    ensures IsSpace(c) <==> c as int == 32 || 9 <= c as int <= 13
  {
  }

  /** The white space and the comment of a line. */
  datatype Gaps = Gaps(before: string, left: string, right: string, after: string, rest: string)

  predicate GapsOk(g: Gaps) {
    AllSpace(g.before) && AllSpace(g.left) && AllSpace(g.right) && AllSpace(g.after) && IsComment(g.rest)
  }

  predicate OptionLaid(g: Gaps, line: string, name: string, val: string) {
    line == g.before + name + g.left + "=" + g.right + val + g.after + g.rest
  }

  /** name = val, with any white space around both and a comment behind. The name has no '='
      and does not look like a section. */
  ghost predicate OptionText(line: string, name: string, val: string) {
    && (exists g {:trigger OptionLaid(g, line, name, val)} :: GapsOk(g) && OptionLaid(g, line, name, val))
    && Trimmed(name) && Trimmed(val) && '#' !in name && '#' !in val && '=' !in name && (|name| > 0 ==> name[0] != '[')
  }

  predicate HeaderLaid(g: Gaps, line: string, name: string) {
    line == g.before + "[" + name + "]" + g.after + g.rest
  }

  /** [name], with any white space around the brackets and a comment behind. */
  ghost predicate HeaderText(line: string, name: string) {
    && (exists g {:trigger HeaderLaid(g, line, name)} :: GapsOk(g) && HeaderLaid(g, line, name))
    && '#' !in name && ']' !in name
  }

  predicate BlankLaid(g: Gaps, line: string) {
    line == g.before + g.rest
  }

  /** White space, with a comment behind. */
  ghost predicate BlankText(line: string) {
    exists g {:trigger BlankLaid(g, line)} :: GapsOk(g) && BlankLaid(g, line)
  }

  /** Everything else ends the program. */
  ghost predicate BadText(line: string) {
    && !BlankText(line) && (forall name :: !HeaderText(line, name))
    && forall name, val :: !OptionText(line, name, val)
  }

  // ----- stripping

  lemma {:induction false} StripLeftGap(b: string, s: string)
    requires AllSpace(b) && (|s| > 0 ==> !IsSpace(s[0]))
    ensures StripLeft(b + s) == s
  {
    if |b| > 0 {
      assert (b + s)[1..] == b[1..] + s;
      StripLeftGap(b[1..], s);
    } else {
      assert b + s == s;
    }
  }

  lemma {:induction false} StripRightGap(s: string, a: string)
    requires AllSpace(a) && (|s| > 0 ==> !IsSpace(s[|s| - 1]))
    ensures StripRight(s + a) == s
  {
    if |a| > 0 {
      assert (s + a)[..|s + a| - 1] == s + a[..|a| - 1];
      StripRightGap(s, a[..|a| - 1]);
    } else {
      assert s + a == s;
    }
  }

  lemma StripGaps(b: string, s: string, a: string)
    requires AllSpace(b) && AllSpace(a) && Trimmed(s)
    ensures Strip(b + s + a) == s
  {
    if |s| == 0 {
      assert b + s + a == (b + a) + "";
      StripLeftGap(b + a, "");
    } else {
      assert b + s + a == b + (s + a);
      StripLeftGap(b, s + a);
      StripRightGap(s, a);
    }
  }

  lemma {:induction false} StripLeftParts(s: string) returns (b: string)
    ensures AllSpace(b) && s == b + StripLeft(s)
    ensures |StripLeft(s)| > 0 ==> !IsSpace(StripLeft(s)[0])
  {
    b := "";
    if |s| > 0 && IsSpace(s[0]) {
      b := StripLeftParts(s[1..]);
      b := [s[0]] + b;
    }
  }

  lemma {:induction false} StripRightParts(s: string) returns (a: string)
    ensures AllSpace(a) && s == StripRight(s) + a
    ensures |StripRight(s)| > 0 ==> !IsSpace(StripRight(s)[|StripRight(s)| - 1])
  {
    a := "";
    if |s| > 0 && IsSpace(s[|s| - 1]) {
      a := StripRightParts(s[..|s| - 1]);
      a := a + [s[|s| - 1]];
    }
  }

  /** Strip takes white space from both ends, as much as there is. */
  lemma StripParts(s: string) returns (b: string, a: string)
    ensures AllSpace(b) && AllSpace(a) && s == b + Strip(s) + a && Trimmed(Strip(s))
  {
    b := StripLeftParts(s);
    a := StripRightParts(StripLeft(s));
    assert StripLeft(s) == Strip(s) + a;
    assert b + StripLeft(s) == b + Strip(s) + a;
    assert |Strip(s)| > 0 ==> Strip(s)[0] == StripLeft(s)[0];
  }

  /** The first visible character stays the first. */
  lemma StripFirst(b: string, c: char, r: string)
    requires AllSpace(b) && !IsSpace(c)
    ensures |Strip(b + [c] + r)| > 0 && Strip(b + [c] + r)[0] == c
  {
    assert b + [c] + r == b + ([c] + r);
    StripLeftGap(b, [c] + r);
    var a := StripRightParts([c] + r);
    assert (StripRight([c] + r) + a)[0] == c;
  }

  // ----- the text of a line

  lemma FirstIndex(a: string, c: char, r: string)
    requires c !in a && (|r| > 0 ==> r[0] == c)
    ensures IndexOf(a + r, c) == |a|
  {
    IndexOfMeaning(a + r, c);
    assert forall i :: 0 <= i < |a| ==> (a + r)[i] == a[i];
    assert |r| > 0 ==> (a + r)[|a|] == c;
  }

  lemma SpaceHasNo(b: string, c: char)
    requires AllSpace(b) && !IsSpace(c)
    ensures c !in b
  {
  }

  function TextOf(line: string): string {
    IndexOfMeaning(line, '#');
    line[..IndexOf(line, '#')]
  }

  /** The part of the line in front of a comment. */
  lemma TextIs(text: string, rest: string)
    requires '#' !in text && IsComment(rest)
    ensures TextOf(text + rest) == text
  {
    FirstIndex(text, '#', rest);
  }

  lemma TextParts(line: string) returns (rest: string)
    ensures line == TextOf(line) + rest && IsComment(rest) && '#' !in TextOf(line)
  {
    IndexOfMeaning(line, '#');
    rest := line[IndexOf(line, '#')..];
  }

  // ----- the grammar is what the line means

  lemma OptionTextClassified(g: Gaps, line: string, name: string, val: string)
    requires GapsOk(g) && OptionLaid(g, line, name, val) && OptionText(line, name, val)
    ensures Classify(line) == OptionLine(name, val)
  {
    var (l, r) := (g.before + name + g.left, g.right + val + g.after);
    var text := l + "=" + r;
    SpaceHasNo(g.before, '#');
    SpaceHasNo(g.left, '#');
    SpaceHasNo(g.right, '#');
    SpaceHasNo(g.after, '#');
    assert line == text + g.rest;
    TextIs(text, g.rest);
    SpaceHasNo(g.before, '=');
    SpaceHasNo(g.left, '=');
    assert text == l + ("=" + r);
    FirstIndex(l, '=', "=" + r);
    assert text[..|l|] == l && text[|l| + 1..] == r;
    StripGaps(g.before, name, g.left);
    StripGaps(g.right, val, g.after);
    OptionFirst(g, name, r);
  }

  lemma OptionFirst(g: Gaps, name: string, r: string)
    requires GapsOk(g) && Trimmed(name) && (|name| > 0 ==> name[0] != '[')
    ensures var s := Strip(g.before + name + g.left + "=" + r);
      |s| > 0 && s[0] != '['
  {
    var text := g.before + name + g.left + "=" + r;
    if |name| > 0 {
      assert text == g.before + [name[0]] + (name[1..] + g.left + "=" + r);
      StripFirst(g.before, name[0], name[1..] + g.left + "=" + r);
    } else {
      assert text == (g.before + g.left) + ['='] + r;
      StripFirst(g.before + g.left, '=', r);
    }
  }

  lemma HeaderTextClassified(g: Gaps, line: string, name: string)
    requires GapsOk(g) && HeaderLaid(g, line, name) && HeaderText(line, name)
    ensures Classify(line) == HeaderLine(name)
  {
    var s := "[" + name + "]";
    SpaceHasNo(g.before, '#');
    SpaceHasNo(g.after, '#');
    assert line == (g.before + s + g.after) + g.rest;
    TextIs(g.before + s + g.after, g.rest);
    StripGaps(g.before, s, g.after);
    FirstIndex("[" + name, ']', "]");
    assert s == ("[" + name) + "]" && s[1..|name| + 1] == name && s[|name| + 2..] == "";
  }

  lemma BlankTextClassified(g: Gaps, line: string)
    requires GapsOk(g) && BlankLaid(g, line)
    ensures Classify(line) == Blank
  {
    SpaceHasNo(g.before, '#');
    SpaceHasNo(g.before, '=');
    TextIs(g.before, g.rest);
    assert g.before + "" + "" == g.before;
    StripGaps(g.before, "", "");
    assert g.before + "" == g.before;
    FirstIndex(g.before, '=', "");
  }

  lemma NameVisible(b: string, name: string, r: string)
    requires AllSpace(b) && Trimmed(name) && |name| > 0
    ensures |Strip(b + name + r)| > 0 && Strip(b + name + r)[0] == name[0]
  {
    assert b + name + r == b + [name[0]] + (name[1..] + r);
    StripFirst(b, name[0], name[1..] + r);
  }

  lemma StripWithin(s: string, c: char)
    requires c !in s
    ensures c !in Strip(s)
  {
    var b, a := StripParts(s);
    assert forall i :: 0 <= i < |Strip(s)| ==> s[|b| + i] == Strip(s)[i];
  }

  /** The two sides of the first '='. */
  lemma OptionSides(line: string) returns (l: string, r: string, rest: string)
    requires Classify(line).OptionLine?
    ensures line == l + "=" + r + rest && IsComment(rest) && '#' !in l && '#' !in r && '=' !in l
    ensures Classify(line) == OptionLine(Strip(l), Strip(r))
    ensures var s := Strip(l + "=" + r);
      |s| > 0 ==> s[0] != '['
  {
    rest := TextParts(line);
    var text := TextOf(line);
    IndexOfMeaning(text, '=');
    l, r := text[..IndexOf(text, '=')], text[IndexOf(text, '=') + 1..];
    assert text == l + "=" + r;
  }

  lemma ClassifiedOption(line: string)
    requires Classify(line).OptionLine?
    ensures OptionText(line, Classify(line).name, Classify(line).val)
  {
    var l, r, rest := OptionSides(line);
    var (name, val) := (Strip(l), Strip(r));
    var b1, a1 := StripParts(l);
    var b2, a2 := StripParts(r);
    StripWithin(l, '#');
    StripWithin(r, '#');
    StripWithin(l, '=');
    OptionLays(Gaps(b1, a1, b2, a2, rest), line, l, name, r, val);
    if |name| > 0 {
      assert l + "=" + r == b1 + name + (a1 + "=" + r);
      NameVisible(b1, name, a1 + "=" + r);
    }
  }

  lemma OptionLays(g: Gaps, line: string, l: string, name: string, r: string, val: string)
    requires line == l + "=" + r + g.rest && l == g.before + name + g.left && r == g.right + val + g.after
    ensures OptionLaid(g, line, name, val)
  {
  }

  /** What is in front of the first ']' and behind it. */
  lemma HeaderSides(s: string) returns (name: string, tail: string)
    requires |s| > 0 && s[0] == '[' && IndexOf(s, ']') < |s|
    ensures IndexOf(s, ']') > 0 && name == s[1..IndexOf(s, ']')] && tail == s[IndexOf(s, ']') + 1..]
    ensures s == "[" + name + "]" + tail && ']' !in name
  {
    IndexOfMeaning(s, ']');
    name, tail := s[1..IndexOf(s, ']')], s[IndexOf(s, ']') + 1..];
  }

  lemma HeaderLays(g: Gaps, line: string, s: string, name: string, tail: string, a: string)
    requires line == g.before + s + a + g.rest && s == "[" + name + "]" + tail && g.after == tail + a
    ensures HeaderLaid(g, line, name)
  {
  }

  lemma ClassifiedHeader(line: string)
    requires Classify(line).HeaderLine?
    ensures HeaderText(line, Classify(line).name)
  {
    var rest := TextParts(line);
    var b, a := StripParts(TextOf(line));
    IndexOfMeaning(Strip(TextOf(line)), ']');
    var name, tail := HeaderSides(Strip(TextOf(line)));
    StripWithin(TextOf(line), '#');
    HeaderLays(Gaps(b, "", "", tail + a, rest), line, Strip(TextOf(line)), name, tail, a);
  }

  lemma ClassifiedBlank(line: string)
    requires Classify(line).Blank?
    ensures BlankText(line)
  {
    var rest := TextParts(line);
    var b, a := StripParts(TextOf(line));
    assert BlankLaid(Gaps(TextOf(line), "", "", "", rest), line) && GapsOk(Gaps(TextOf(line), "", "", "", rest));
  }

  /** A line means exactly what the grammar says. */
  lemma LineMeans(line: string)
    ensures BlankText(line) <==> Classify(line) == Blank
    ensures forall name :: HeaderText(line, name) <==> Classify(line) == HeaderLine(name)
    ensures forall name, val :: OptionText(line, name, val) <==> Classify(line) == OptionLine(name, val)
    ensures BadText(line) <==> Classify(line) == BadLine
  {
    if Classify(line).Blank? { ClassifiedBlank(line); }
    if Classify(line).HeaderLine? { ClassifiedHeader(line); }
    if Classify(line).OptionLine? { ClassifiedOption(line); }
    if BlankText(line) {
      var g :| GapsOk(g) && BlankLaid(g, line);
      BlankTextClassified(g, line);
    }
    forall name | HeaderText(line, name)
      ensures Classify(line) == HeaderLine(name)
    {
      var g :| GapsOk(g) && HeaderLaid(g, line, name);
      HeaderTextClassified(g, line, name);
    }
    forall name, val | OptionText(line, name, val)
      ensures Classify(line) == OptionLine(name, val)
    {
      var g :| GapsOk(g) && OptionLaid(g, line, name, val);
      OptionTextClassified(g, line, name, val);
    }
  }

  // ----- the file

  /** The sections after one more line: the same, with a new section that has no options, or
      with one more option at the end of the last section, which is a new global one at the
      start of the file. */
  ghost predicate LineSays(line: string, before: seq<Section>, after: seq<Section>) {
    || (BlankText(line) && after == before)
    || (|after| == |before| + 1 && before < after && after[|before|].opts == []
        && HeaderText(line, after[|before|].name))
    || (|after| > 0 && OptionAdded(line, before, after[..|after| - 1], after[|after| - 1]))
  }

  ghost predicate OptionAdded(line: string, before: seq<Section>, front: seq<Section>, last: Section) {
    && |last.opts| > 0
    && var (opts, o) := (last.opts[..|last.opts| - 1], last.opts[|last.opts| - 1]);
       && OptionText(line, o.name, o.val)
       && if |before| == 0 then front == [] && last.name == "global" && opts == []
          else before == front + [Section(last.name, opts)]
  }

  function Front(lines: seq<string>): seq<string>
    requires |lines| > 0
  {
    lines[..|lines| - 1]
  }

  /** The sections that the lines of a file describe. */
  ghost predicate FileSays(lines: seq<string>, secs: seq<Section>)
    decreases |lines|
  {
    if |lines| == 0 then secs == []
    else
      exists before :: FileSays(Front(lines), before) && LineSays(lines[|lines| - 1], before, secs)
  }

  lemma OneMoreLine(lines: seq<string>, line: string, before: seq<Section>, secs: seq<Section>)
    requires FileSays(lines, before) && LineSays(line, before, secs)
    ensures FileSays(lines + [line], secs)
  {
    var all := lines + [line];
    assert Front(all) == lines && all[|all| - 1] == line;
  }

  lemma HeaderIsAdded(before: seq<Section>, after: seq<Section>, name: string)
    ensures after == before + [Section(name, [])] <==>
      |after| == |before| + 1 && before < after && after[|before|] == Section(name, [])
  {
  }

  lemma OptionIsAdded(before: seq<Section>, after: seq<Section>, o: Opt)
    ensures AddLine(before, OptionLine(o.name, o.val)) == Some(after) <==>
      && |after| > 0 && |after[|after| - 1].opts| > 0
      && var (front, last) := (after[..|after| - 1], after[|after| - 1]);
         && last.opts[|last.opts| - 1] == o
         && if |before| == 0 then front == [] && last.name == "global" && last.opts[..|last.opts| - 1] == []
            else before == front + [Section(last.name, last.opts[..|last.opts| - 1])]
  {
    var open := if |before| == 0 then [Section("global", [])] else before;
    var was := open[|open| - 1];
    assert open == open[..|open| - 1] + [was];
    assert (was.opts + [o])[..|was.opts|] == was.opts;
    if |after| > 0 {
      assert after == after[..|after| - 1] + [after[|after| - 1]];
      var opts := after[|after| - 1].opts;
      assert |opts| > 0 ==> opts == opts[..|opts| - 1] + [opts[|opts| - 1]];
    }
  }

  lemma LineSaysAdded(line: string, before: seq<Section>, after: seq<Section>)
    ensures LineSays(line, before, after) <==> AddLine(before, Classify(line)) == Some(after)
  {
    LineMeans(line);
    match Classify(line)
    case OptionLine(name, val) => OptionIsAdded(before, after, Opt(name, val));
    case HeaderLine(name) => HeaderIsAdded(before, after, name);
    case _ =>
  }

  lemma LineSaysOnce(line: string, before: seq<Section>, a: seq<Section>, b: seq<Section>)
    requires LineSays(line, before, a) && LineSays(line, before, b)
    ensures a == b
  {
    LineSaysAdded(line, before, a);
    LineSaysAdded(line, before, b);
  }

  /** A file describes its sections in one way only. */
  lemma {:induction false} FileSaysOnce(lines: seq<string>, a: seq<Section>, b: seq<Section>)
    requires FileSays(lines, a) && FileSays(lines, b)
    ensures a == b
    decreases |lines|
  {
    if |lines| > 0 {
      var (front, line) := (lines[..|lines| - 1], lines[|lines| - 1]);
      var before :| FileSays(Front(lines), before) && LineSays(line, before, a);
      var before' :| FileSays(Front(lines), before') && LineSays(line, before', b);
      FileSaysOnce(front, before, before');
      LineSaysOnce(line, before, a, b);
    }
  }

  /** What a line adds: an option line the option (name, val) as the last one of the last
      section, a header line an empty section, any other line nothing. */
  lemma LineAdds(line: string, before: seq<Section>, after: seq<Section>)
    requires LineSays(line, before, after)
    ensures forall name, val :: OptionText(line, name, val) ==>
      |after| > 0 && |after[|after| - 1].opts| > 0
      && after[|after| - 1].opts[|after[|after| - 1].opts| - 1] == Opt(name, val)
    ensures forall name :: HeaderText(line, name) ==> after == before + [Section(name, [])]
    ensures BlankText(line) ==> after == before
  {
    LineSaysAdded(line, before, after);
    LineMeans(line);
  }

  /** The last line of a file adds to the sections of the lines before. */
  lemma LastLine(lines: seq<string>, line: string, before: seq<Section>, after: seq<Section>)
    requires FileSays(lines, before) && FileSays(lines + [line], after)
    ensures LineSays(line, before, after)
  {
    var all := lines + [line];
    assert Front(all) == lines && all[|all| - 1] == line;
    var front :| FileSays(Front(all), front) && LineSays(line, front, after);
    FileSaysOnce(lines, before, front);
  }
}
