/** The INI file parser of inifileparser/main.py, over the list of lines `read_file`
    returns (each with its line break already removed). A file is a sequence of
    `[name]` headers, each followed by `name=value` properties; blank lines and lines
    whose first non-blank character is `;` or `#` are skipped inside a section. */
module IniParser {

  import opened PyCore

  /** `SPACES`. */
  predicate IsIniSpace(c: char) {
    c == ' ' || c == '\t' || c == '\n' || c == '\r'
  }

  /** What `skip_whitespaces(line, index)` returns: the first position at or after index
      that is not in SPACES, or -1 when there is none. */
  function SkipSpaces(line: string, index: nat): (r: int)
    ensures r == -1 <==> forall k :: index <= k < |line| ==> IsIniSpace(line[k])
    ensures r != -1 ==> index <= r < |line| && !IsIniSpace(line[r])
    ensures r != -1 ==> forall k :: index <= k < r ==> IsIniSpace(line[k])
    decreases |line| - index
  {
    if index >= |line| then -1
    else if !IsIniSpace(line[index]) then index
    else SkipSpaces(line, index + 1)
  }

  /** `skip_whitespaces(line, index)`. */
  method SkipWhitespaces(line: string, index: nat) returns (r: int)
    ensures r == SkipSpaces(line, index)
  {
    var i := index;
    while i < |line| && IsIniSpace(line[i])
      invariant index <= i
      invariant forall k :: index <= k < i && k < |line| ==> IsIniSpace(line[k])
      invariant SkipSpaces(line, i) == SkipSpaces(line, index)
      decreases |line| - i
    {
      i := i + 1;
    }
    r := if i < |line| then i else -1;
  }

  /** `is_comment(line, index)`: Python indexing, so -1 reads the last character and an
      index out of range raises IndexError. */
  function IsComment(line: string, index: int): (r: Outcome<bool>)
    ensures 0 <= index < |line| ==> r == Return(line[index] == ';' || line[index] == '#')
    ensures r.Raise? <==> !(-|line| <= index < |line|)
  {
    match Index(line, index)
    case Raise(err) => Raise(err)
    case Return(c) => Return(c == ';' || c == '#')
  }

  /** How `parse_section` reads one line. */
  datatype LineKind =
    | Blank
    | Comment
    | Header
    | Property(name: string, value: string)
    | Malformed

  /** The reading of one line inside a section: blank, comment, the header of the next
      section, `name=value` (both sides stripped), or a SyntaxError because there is no
      '=' or nothing after the first one. */
  function Classify(line: string): (k: LineKind)
    ensures k.Blank? <==> SkipSpaces(line, 0) == -1
  {
    ClassifyAt(line, SkipSpaces(line, 0), Find(line, "=", 0))
  }

  /** The branches of `Classify`, given the first non-blank position i and the position
      eq of the first '='. */
  function ClassifyAt(line: string, i: int, eq: int): (k: LineKind)
    requires i == -1 || 0 <= i < |line|
    requires eq == -1 || 0 <= eq < |line|
    ensures k.Blank? <==> i == -1
  {
    if i == -1 then Blank
    else if line[i] == ';' || line[i] == '#' then Comment
    else if line[i] == '[' then Header
    else if eq == -1 || eq + 1 >= |line| then Malformed
    else Property(Strip(Slice(line, i, eq)), Strip(line[eq + 1..]))
  }

  /** A property line: the name is the stripped text between the first non-blank
      character and the first '=', the value the stripped text after that '=', which is
      not the last character. */
  lemma ClassifyProperty(line: string)
    requires Classify(line).Property?
    ensures exists e :: (FirstEquals(line, e) && e < |line| - 1 &&
      Classify(line).name == Strip(line[SkipSpaces(line, 0)..e]) &&
      Classify(line).value == Strip(line[e + 1..]))
  {
    var i := SkipSpaces(line, 0);
    var eq := Find(line, "=", 0);
    assert FirstEquals(line, eq) by {
      FindEquals(line, eq);
    }
    PropertyAt(line, i, eq);
    assert FirstEquals(line, eq) && eq < |line| - 1 &&
      Classify(line).name == Strip(line[SkipSpaces(line, 0)..eq]) &&
      Classify(line).value == Strip(line[eq + 1..]);
  }

  /** The name and value of a property line, from the two positions. */
  lemma PropertyAt(line: string, i: int, eq: int)
    requires 0 <= i < |line| && !IsIniSpace(line[i])
    requires forall k :: 0 <= k < i ==> IsIniSpace(line[k])
    requires FirstEquals(line, eq) && ClassifyAt(line, i, eq).Property?
    ensures i <= eq < |line| - 1
    ensures ClassifyAt(line, i, eq).name == Strip(line[i..eq])
    ensures ClassifyAt(line, i, eq).value == Strip(line[eq + 1..])
  {
    assert i <= eq by {
      assert IsIniSpace(line[eq]) || eq >= i;
    }
    assert Slice(line, i, eq) == line[i..eq];
  }

  /** `line.find('=')` is the position of the first '='. */
  lemma FindEquals(line: string, eq: int)
    requires eq == Find(line, "=", 0) && eq != -1
    ensures FirstEquals(line, eq)
  {
    assert line[eq..eq + 1] == "=";
    forall c | 0 <= c < eq ensures line[c] != '=' {
      assert !OccursAt(line, "=", c);
      assert line[c..c + 1] == [line[c]];
    }
  }

  /** The first '=' of the line is at e. */
  predicate FirstEquals(line: string, e: int) {
    0 <= e < |line| && line[e] == '=' && forall c :: 0 <= c < e ==> line[c] != '='
  }

  /** The reading of one line, as the body of the loop in `parse_section` performs it. */
  method ReadLine(line: string) returns (k: LineKind)
    ensures k == Classify(line)
  {
    var i := SkipWhitespaces(line, 0);
    if i == -1 {
      return Blank;
    }
    var comment := IsComment(line, i);
    if comment.value {
      return Comment;
    }
    if line[i] == '[' {
      return Header;
    }
    var eqPos := Find(line, "=", 0);
    if eqPos == -1 {
      return Malformed;
    }
    var name := Strip(Slice(line, i, eqPos));
    var valuePos := eqPos + 1;
    if valuePos >= |line| {
      return Malformed;
    }
    k := Property(name, Strip(line[valuePos..]));
  }

  /** How each line reads. */
  function Kinds(lines: seq<string>): (ks: seq<LineKind>)
    ensures |ks| == |lines|
  {
    if lines == [] then [] else Kinds(lines[..|lines| - 1]) + [Classify(lines[|lines| - 1])]
  }

  lemma {:induction false} KindAt(lines: seq<string>, p: nat)
    requires p < |lines|
    ensures Kinds(lines)[p] == Classify(lines[p])
    decreases |lines|
  {
    if p < |lines| - 1 {
      KindAt(lines[..|lines| - 1], p);
    }
  }

  /** The reading of line p, as the loop of `parse_section` performs it. */
  method ReadKind(lines: seq<string>, p: nat) returns (k: LineKind)
    requires p < |lines|
    ensures k == Kinds(lines)[p]
  {
    k := ReadLine(lines[p]);
    KindAt(lines, p);
  }

  /** A line that ends a section scan: the next header, or a SyntaxError. */
  predicate Stops(kind: LineKind) {
    kind.Header? || kind.Malformed?
  }

  /** The position of the first stopping line at or after index, or the number of lines. */
  function SectionEnd(ks: seq<LineKind>, index: nat): (e: nat)
    requires index <= |ks|
    ensures index <= e <= |ks|
    ensures forall k :: index <= k < e ==> !Stops(ks[k])
    ensures e < |ks| ==> Stops(ks[e])
    decreases |ks| - index
  {
    if index == |ks| || Stops(ks[index]) then index else SectionEnd(ks, index + 1)
  }

  type Props = map<string, string>

  /** The properties lines lo..hi-1 define, later ones replacing earlier ones with the
      same name. */
  function PropsOf(ks: seq<LineKind>, lo: nat, hi: nat): Props
    requires lo <= hi <= |ks|
    decreases hi - lo
  {
    if hi == lo then map[]
    else
      var props := PropsOf(ks, lo, hi - 1);
      match ks[hi - 1]
      case Property(name, value) => props[name := value]
      case _ => props
  }

  /** What `parse_section(lines, index)` returns or raises, from how its lines read. With
      no line left, the loop variable `offset` is never bound and the final return raises
      UnboundLocalError. */
  function SectionOf(ks: seq<LineKind>, index: nat): (r: Outcome<(Props, nat)>)
    ensures r.Return? ==> index < |ks| && index <= r.value.1 <= |ks|
  {
    if index >= |ks| then Raise(UnboundLocalError)
    else
      var e := SectionEnd(ks, index);
      if e < |ks| && ks[e].Malformed? then Raise(SyntaxError)
      else Return((PropsOf(ks, index, e), e))
  }

  function Section(lines: seq<string>, index: nat): (r: Outcome<(Props, nat)>)
    ensures r.Return? ==> index < |lines| && index <= r.value.1 <= |lines|
  {
    SectionOf(Kinds(lines), index)
  }

  /** `parse_section(lines, index)`. */
  method ParseSection(lines: seq<string>, index: nat) returns (r: Outcome<(Props, nat)>)
    ensures r == Section(lines, index)
  {
    ghost var ks := Kinds(lines);
    var props: Props := map[];
    var rest := if index <= |lines| then lines[index..] else [];
    var offset := 0;
    while offset < |rest|
      invariant 0 <= offset <= |rest|
      invariant rest != [] ==> index + |rest| == |lines| && rest == lines[index..]
      invariant forall k :: index <= k < index + offset ==> !Stops(ks[k])
      invariant rest != [] ==> props == PropsOf(ks, index, index + offset)
    {
      var kind := ReadKind(lines, index + offset);
      match kind {
        case Blank =>
        case Comment =>
        case Header =>
          SectionEndIs(ks, index, index + offset);
          return Return((props, index + offset));
        case Malformed =>
          SectionEndIs(ks, index, index + offset);
          return Raise(SyntaxError);
        case Property(name, value) =>
          props := props[name := value];
      }
      offset := offset + 1;
    }
    if rest == [] {
      return Raise(UnboundLocalError);
    }
    var last := offset - 1;
    SectionEndIs(ks, index, |lines|);
    r := Return((props, index + last + 1));
  }

  lemma {:induction false} SectionEndIs(ks: seq<LineKind>, index: nat, e: nat)
    requires index <= e <= |ks|
    requires forall k :: index <= k < e ==> !Stops(ks[k])
    requires e < |ks| ==> Stops(ks[e])
    ensures SectionEnd(ks, index) == e
    decreases e - index
  {
    if index < e {
      SectionEndIs(ks, index + 1, e);
    }
  }

  /** The line defines the property name. */
  predicate Defines(kind: LineKind, name: string) {
    kind.Property? && kind.name == name
  }

  /** A name is a property of the section iff some line of it defines that name. */
  lemma {:induction false} PropsDefined(ks: seq<LineKind>, lo: nat, hi: nat, name: string)
    requires lo <= hi <= |ks|
    ensures name in PropsOf(ks, lo, hi) <==> exists k :: lo <= k < hi && Defines(ks[k], name)
    decreases hi - lo
  {
    if lo < hi {
      PropsDefined(ks, lo, hi - 1, name);
    }
  }

  /** The value of a property comes from the last line that defines it. */
  lemma {:induction false} PropsLastWins(ks: seq<LineKind>, lo: nat, hi: nat, name: string, k: nat)
    requires lo <= k < hi <= |ks| && Defines(ks[k], name)
    requires forall k' :: k < k' < hi ==> !Defines(ks[k'], name)
    ensures name in PropsOf(ks, lo, hi) && PropsOf(ks, lo, hi)[name] == ks[k].value
    decreases hi - lo
  {
    if k < hi - 1 {
      PropsLastWins(ks, lo, hi - 1, name, k);
    }
  }

  // ---------------------------------------------------------------------------------
  // parse_ini_file

  type Sections = map<string, Props>

  /** `parse_ini_file` from line i on, with the sections read so far; a section read
      earlier is never dropped, though a later header of the same name replaces its
      properties. */
  function IniFrom(lines: seq<string>, i: nat, sections: Sections): (r: Outcome<Sections>)
    ensures r.Return? ==> sections.Keys <= r.value.Keys
    decreases |lines| - i
  {
    if i >= |lines| then Return(sections)
    else
      var line := lines[i];
      var j := SkipSpaces(line, 0);
      match Index(line, j)
      case Raise(err) => Raise(err)
      case Return(c) =>
        if c == '[' then
          assert j >= 0;
          var name := Slice(line, j + 1, Find(line, "]", j));
          match Section(lines, i + 1)
          case Raise(err) => Raise(err)
          case Return(result) => IniFrom(lines, result.1, sections[name := result.0])
        else if !IsComment(line, j).value then Raise(SyntaxError)
        else IniFrom(lines, i + 1, sections)
  }

  /** `parse_ini_file(filename)` on the lines of the file. */
  method ParseIniFile(lines: seq<string>) returns (r: Outcome<Sections>)
    ensures r == IniFrom(lines, 0, map[])
  {
    var sections: Sections := map[];
    var i := 0;
    while i < |lines|
      invariant IniFrom(lines, i, sections) == IniFrom(lines, 0, map[])
      decreases |lines| - i
    {
      var j := SkipWhitespaces(lines[i], 0);
      var c := Index(lines[i], j);
      if c.Raise? {
        return Raise(c.error);
      }
      if c.value == '[' {
        var nameEnd := Find(lines[i], "]", j);
        var name := Slice(lines[i], j + 1, nameEnd);
        var section := ParseSection(lines, i + 1);
        if section.Raise? {
          return Raise(section.error);
        }
        sections, i := sections[name := section.value.0], section.value.1;
      } else {
        var comment := IsComment(lines[i], j);
        if !comment.value {
          return Raise(SyntaxError);
        }
        i := i + 1;
      }
    }
    r := Return(sections);
  }

  /** The name `parse_ini_file` gives a header line: the text between the first '[' and
      the next ']' (without a ']', everything after '[' but the last character). */
  function HeaderName(line: string): string
    requires Classify(line).Header?
  {
    var j := SkipSpaces(line, 0);
    Slice(line, j + 1, Find(line, "]", j))
  }

  /** Every section read is named by one of the header lines. */
  lemma {:induction false} SectionsFromHeaders(lines: seq<string>, i: nat, sections: Sections)
    requires IniFrom(lines, i, sections).Return?
    ensures forall name :: name in IniFrom(lines, i, sections).value ==>
      name in sections || exists k :: i <= k < |lines| && Classify(lines[k]).Header? && HeaderName(lines[k]) == name
    decreases |lines| - i
  {
    if i < |lines| {
      var line := lines[i];
      var j := SkipSpaces(line, 0);
      var c := Index(line, j).value;
      if c == '[' {
        assert Classify(line).Header?;
        var result := Section(lines, i + 1).value;
        var name := HeaderName(line);
        SectionsFromHeaders(lines, result.1, sections[name := result.0]);
      } else {
        SectionsFromHeaders(lines, i + 1, sections);
      }
    }
  }

  /** Outside a section, a property line (or any line that is not a header or a comment)
      is a SyntaxError; an empty line is an IndexError. */
  lemma OutsideSection(lines: seq<string>, i: nat, sections: Sections)
    requires i < |lines|
    ensures Classify(lines[i]).Property? || Classify(lines[i]).Malformed? ==> IniFrom(lines, i, sections) == Raise(SyntaxError)
    ensures lines[i] == "" ==> IniFrom(lines, i, sections) == Raise(IndexError)
    ensures lines[i] != "" && Classify(lines[i]).Blank? ==> IniFrom(lines, i, sections) == Raise(SyntaxError)
    ensures Classify(lines[i]).Comment? ==> IniFrom(lines, i, sections) == IniFrom(lines, i + 1, sections)
  {
  }

  /** A small file: one section with a comment, a blank line and a value containing '='. */
  lemma Example()
    ensures IniFrom(["[db]", "; note", "", " host = a=b "], 0, map[])
      == Return(map["db" := map["host" := "a=b"]])
  {
    var lines := ["[db]", "; note", "", " host = a=b "];
    ExampleHeader(lines[0]);
    ExampleSection(lines);
    assert IniFrom(lines, 4, map["db" := map["host" := "a=b"]]) == Return(map["db" := map["host" := "a=b"]]);
  }

  lemma ExampleHeader(line: string)
    requires line == "[db]"
    ensures SkipSpaces(line, 0) == 0 && Index(line, 0) == Return('[')
    ensures Slice(line, 1, Find(line, "]", 0)) == "db"
  {
    assert line[3..4] == "]";
    assert Find(line, "]", 3) == 3;
    assert line[2..3] == "b" && Find(line, "]", 2) == 3;
    assert line[1..2] == "d" && Find(line, "]", 1) == 3;
    assert line[0..1] == "[" && Find(line, "]", 0) == 3;
  }

  lemma ExampleSection(lines: seq<string>)
    requires lines == ["[db]", "; note", "", " host = a=b "]
    ensures Section(lines, 1) == Return((map["host" := "a=b"], 4))
  {
    ExampleKinds(lines);
    ExampleSectionOf(Kinds(lines));
  }

  /** The lines of the example read as a comment, a blank line and a property. */
  lemma ExampleKinds(lines: seq<string>)
    requires lines == ["[db]", "; note", "", " host = a=b "]
    ensures |Kinds(lines)| == 4
    ensures Kinds(lines)[1] == Comment && Kinds(lines)[2] == Blank
    ensures Kinds(lines)[3] == Property("host", "a=b")
  {
    KindAt(lines, 1);
    KindAt(lines, 2);
    KindAt(lines, 3);
    assert Classify(lines[1]).Comment? by {
      assert SkipSpaces(lines[1], 0) == 0;
    }
    assert Classify(lines[2]).Blank?;
    ExampleProperty(lines[3]);
  }

  /** The section after the example's header runs to the end and holds one property. */
  lemma ExampleSectionOf(ks: seq<LineKind>)
    requires |ks| == 4 && ks[1] == Comment && ks[2] == Blank && ks[3] == Property("host", "a=b")
    ensures SectionOf(ks, 1) == Return((map["host" := "a=b"], 4))
  {
    assert SectionEnd(ks, 1) == 4;
    assert PropsOf(ks, 1, 4) == map["host" := "a=b"];
  }

  lemma ExampleProperty(l: string)
    requires l == " host = a=b "
    ensures Classify(l) == Property("host", "a=b")
  {
    ExampleSkip(l);
    ExampleEquals(l);
    ExampleAt(l);
    ExampleStrips();
  }

  /** The example line starts after one blank. */
  lemma ExampleSkip(l: string)
    requires l == " host = a=b "
    ensures SkipSpaces(l, 0) == 1
  {
    assert !IsIniSpace(l[1]);
  }

  /** The example line read from its two positions. */
  lemma ExampleAt(l: string)
    requires l == " host = a=b "
    ensures ClassifyAt(l, 1, 6) == Property(Strip("host "), Strip(" a=b "))
  {
    assert Slice(l, 1, 6) == l[1..6] == "host ";
    assert l[7..] == " a=b ";
  }

  lemma ExampleEquals(l: string)
    requires l == " host = a=b "
    ensures Find(l, "=", 0) == 6
  {
    assert l[6..7] == "=" && Find(l, "=", 6) == 6;
    assert l[5..6] == " " && Find(l, "=", 5) == 6;
    assert l[4..5] == "t" && Find(l, "=", 4) == 6;
    assert l[3..4] == "s" && Find(l, "=", 3) == 6;
    assert l[2..3] == "o" && Find(l, "=", 2) == 6;
    assert l[1..2] == "h" && Find(l, "=", 1) == 6;
    assert l[0..1] == " " && Find(l, "=", 0) == 6;
  }

  lemma ExampleStrips()
    ensures Strip("host ") == "host" && Strip(" a=b ") == "a=b"
  {
    assert LeftStrip("host ") == "host ";
    assert RightStrip("host ") == RightStrip("host");
    assert RightStrip("host") == "host";
    assert LeftStrip(" a=b ") == LeftStrip("a=b ") == "a=b ";
    assert RightStrip("a=b ") == RightStrip("a=b");
    assert RightStrip("a=b") == "a=b";
  }
}
