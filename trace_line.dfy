/** One line of the interpreter's `-X importtime` stderr, as the parse loop reads it
    (importtime_waterfall.py lines 184-200). */
module TraceLine {
  import opened Wrappers
  import opened PyText

  const ImportTime := "import time:"

  /** What the parse loop makes of one line. */
  datatype TraceLine =
    | Ignored                       // no marker, or a time field that int() rejects: `continue`
    | Unsplittable(fields: nat)     // marker present but not three `|` fields: the unpack raises
    | Entry(selfTime: int, cumulativeTime: int, name: string, indent: nat)
        // `name` is the name field with leading whitespace stripped; `indent` is how much was stripped

  /** Lines 184-193 for one line: skip it without the marker, else parse the fields after it. */
  function ParseLine(line: string): (r: TraceLine)
    ensures !StartsWith(line, ImportTime) ==> r == Ignored
    ensures r.Unsplittable? ==> r.fields == Count(line[|ImportTime|..], '|') + 1 != 3
  {
    if !StartsWith(line, ImportTime) then Ignored
    else ParseFields(Split(line[|ImportTime|..], '|'))
  }

  /** The unpack into three fields, the two int() calls under `try`, and the lstrip of the name.
      The unpack fails exactly when there are not three fields, the line is skipped exactly when
      one of the times is not an integer, and otherwise the entry holds both times and the name
      field cut after its leading whitespace. */
  function ParseFields(fields: seq<string>): (r: TraceLine)
    ensures r.Unsplittable? <==> |fields| != 3
    ensures r.Unsplittable? ==> r.fields == |fields|
    ensures r.Ignored? <==> |fields| == 3 && (ParseInt(fields[0]) == None || ParseInt(fields[1]) == None)
    ensures r.Entry? ==>
      && ParseInt(fields[0]) == Some(r.selfTime) && ParseInt(fields[1]) == Some(r.cumulativeTime)
      && r.indent + |r.name| == |fields[2]| && fields[2] == fields[2][..r.indent] + r.name
      && (forall i :: 0 <= i < r.indent ==> IsSpace(fields[2][i]))
      && (r.name == [] || !IsSpace(r.name[0]))
  {
    if |fields| != 3 then Unsplittable(|fields|)
    else
      match (ParseInt(fields[0]), ParseInt(fields[1]))
      case (Some(s), Some(c)) =>
        var name := LStrip(fields[2]);
        LTrimShape(fields[2], IsSpace);
        assert fields[2] == fields[2][..|fields[2]| - |name|] + fields[2][|fields[2]| - |name|..];
        Entry(s, c, name, |fields[2]| - |name|)
      case _ => Ignored
  }

  /** A line with the marker is parsed from what follows the marker. */
  lemma ParseMarked(rest: string)
    ensures ParseLine(ImportTime + rest) == ParseFields(Split(rest, '|'))
  {
    var line := ImportTime + rest;
    assert line[..|ImportTime|] == ImportTime;
    assert line[|ImportTime|..] == rest;
  }

  /** The fields after the marker, as `line.split('|')` gives them. */
  function Fields(line: string): seq<string>
    requires StartsWith(line, ImportTime)
  {
    Split(line[|ImportTime|..], '|')
  }

  /** A line is skipped exactly when it lacks the marker, or it has three fields and one of the
      first two is not an integer; a marked line with any other number of fields is an error. */
  lemma IgnoredExactly(line: string)
    ensures ParseLine(line) == Ignored <==>
      (!StartsWith(line, ImportTime) ||
       (|Fields(line)| == 3 && (ParseInt(Fields(line)[0]) == None || ParseInt(Fields(line)[1]) == None)))
    ensures ParseLine(line).Unsplittable? <==>
      StartsWith(line, ImportTime) && Count(line[|ImportTime|..], '|') != 2
  {
  }

  /** An accepted line splits as marker, self time, `|`, cumulative time, `|`, then `indent`
      whitespace characters and the name, which does not itself start with whitespace. */
  lemma EntryShape(line: string)
    requires ParseLine(line).Entry?
    ensures StartsWith(line, ImportTime) && |Fields(line)| == 3
    ensures var e := ParseLine(line);
      && ParseInt(Fields(line)[0]) == Some(e.selfTime)
      && ParseInt(Fields(line)[1]) == Some(e.cumulativeTime)
      && Fields(line)[2] == Fields(line)[2][..e.indent] + e.name
      && (forall i :: 0 <= i < e.indent ==> IsSpace(Fields(line)[2][i]))
      && (e.name == [] || !IsSpace(e.name[0]))
  {
    var f := Fields(line)[2];
    var n := LStrip(f);
    LTrimShape(f, IsSpace);
    assert f == f[..|f| - |n|] + f[|f| - |n|..];
  }

  /** A marked line of three fields whose first field holds a character int() never accepts
      is skipped, whatever the other two fields hold. */
  lemma NonNumericSelfIgnored(a: string, b: string, c: string, k: nat)
    requires '|' !in a && '|' !in b && '|' !in c
    requires k < |a| && Foreign(a[k])
    ensures ParseLine(ImportTime + a + "|" + b + "|" + c) == Ignored
  {
    ParseThreeFields(a, b, c);
    ParseIntRejectsForeign(a, k);
    ParseFieldsRejected(a, b, c);
  }

  /** Three fields whose first is not an integer make a skipped line. */
  lemma ParseFieldsRejected(a: string, b: string, c: string)
    requires ParseInt(a) == None
    ensures ParseFields([a, b, c]) == Ignored
  {
  }

  /** The header line the interpreter prints first is skipped: `self [us]` is not an integer. */
  lemma HeaderIgnored()
    ensures ParseLine(ImportTime + " self [us] " + "|" + " cumulative " + "|" + " imported package") == Ignored
  {
    NonNumericSelfIgnored(" self [us] ", " cumulative ", " imported package", 1);
  }

  /** U+001F counts as whitespace for str.isspace, but int() does not skip it: a self time
      written after one is rejected and its line is skipped. */
  lemma SeparatorBeforeTimeIgnored()
    ensures IsSpace('\U{1f}') && !IsIntSpace('\U{1f}')
    ensures ParseLine(ImportTime + "\U{1f}5 " + "|" + " 3 " + "|" + " x") == Ignored
  {
    NonNumericSelfIgnored("\U{1f}5 ", " 3 ", " x", 0);
  }

  lemma {:induction false} SplitNoSeparator(x: string, sep: char)
    requires sep !in x
    ensures Split(x, sep) == [x]
  {
    if x != [] {
      SplitNoSeparator(x[1..], sep);
      assert [x[0]] + x[1..] == x;
    }
  }

  lemma {:induction false} SplitAfterField(x: string, sep: char, y: string)
    requires sep !in x
    ensures Split(x + [sep] + y, sep) == [x] + Split(y, sep)
  {
    var s := x + [sep] + y;
    if x == [] {
      assert s[1..] == y;
    } else {
      assert s[1..] == x[1..] + [sep] + y;
      SplitAfterField(x[1..], sep, y);
      assert [x[0]] + x[1..] == x;
    }
  }

  /** Three fields without the separator, joined by it, split back into the same three. */
  lemma SplitThree(a: string, b: string, c: string, sep: char)
    requires sep !in a && sep !in b && sep !in c
    ensures Split(a + [sep] + b + [sep] + c, sep) == [a, b, c]
  {
    assert a + [sep] + b + [sep] + c == a + [sep] + (b + [sep] + c);
    SplitNoSeparator(c, sep);
    SplitAfterField(b, sep, c);
    assert Split(b + [sep] + c, sep) == [b, c];
    SplitAfterField(a, sep, b + [sep] + c);
    assert [a] + [b, c] == [a, b, c];
  }

  /** A marked line of three fields is parsed from those three fields. */
  lemma ParseThreeFields(a: string, b: string, c: string)
    requires '|' !in a && '|' !in b && '|' !in c
    ensures ParseLine(ImportTime + a + "|" + b + "|" + c) == ParseFields([a, b, c])
  {
    assert ImportTime + a + "|" + b + "|" + c == ImportTime + (a + "|" + b + "|" + c);
    ParseMarked(a + "|" + b + "|" + c);
    SplitThree(a, b, c, '|');
  }

  /** printf's `%<width>ld`: the decimal number right-aligned in `width` columns. */
  function RightAligned(n: int, width: nat): string {
    var s := DecimalString(n);
    Spaces(if |s| < width then width - |s| else 0) + s
  }

  /** The line the interpreter writes for a module imported `level` levels below the top,
      `import time: %9ld | %10ld | %*s%s` with two spaces of indentation per level, cut at its
      two `|` separators. */
  function EmittedLine(selfUs: int, cumulativeUs: int, level: nat, name: string): string {
    ImportTime + NumberField(selfUs, 9) + "|" + NumberField(cumulativeUs, 10) + "|" + NameField(level, name)
  }

  /** ` %<width>ld `: a number field, with the spaces on both sides of it in the format. */
  function NumberField(n: int, width: nat): string {
    Spaces(1) + RightAligned(n, width) + Spaces(1)
  }

  /** ` %*s%s` with `2 * level` as the width: the name after one space and two per level. */
  function NameField(level: nat, name: string): string {
    Spaces(1 + 2 * level) + name
  }

  /** A number field as the interpreter pads it reads back as the number, and holds no `|`. */
  lemma ParseNumberField(n: int, width: nat)
    ensures ParseInt(NumberField(n, width)) == Some(n)
    ensures '|' !in NumberField(n, width)
  {
    var d := DecimalString(n);
    var p := if |d| < width then width - |d| else 0;
    assert NumberField(n, width) == Spaces(1 + p) + d + Spaces(1) by {
      assert Spaces(1) + Spaces(p) == Spaces(1 + p);
    }
    ParseDecimalString(n, 1 + p, 1);
    NoBarPadded(1 + p, d, 1);
  }

  lemma NoBarPadded(left: nat, s: string, right: nat)
    requires '|' !in s
    ensures '|' !in Spaces(left) + s + Spaces(right)
  {
    var t := Spaces(left) + s + Spaces(right);
    forall i | 0 <= i < |t| ensures t[i] != '|' {
      if left <= i < left + |s| {
        assert t[i] == s[i - left];
      }
    }
  }

  /** Parsing what the interpreter emits gives back its numbers and name, and the indentation
      seen by the parser is one space for the separator plus two per level. */
  lemma ParseEmitted(selfUs: int, cumulativeUs: int, level: nat, name: string)
    requires '|' !in name && (name == [] || !IsSpace(name[0]))
    ensures ParseLine(EmittedLine(selfUs, cumulativeUs, level, name))
         == Entry(selfUs, cumulativeUs, name, 1 + 2 * level)
  {
    var c := NameField(level, name);
    ParseNumberField(selfUs, 9);
    ParseNumberField(cumulativeUs, 10);
    NoBarPadded(1 + 2 * level, name, 0);
    assert c + Spaces(0) == c;
    ParseThreeFields(NumberField(selfUs, 9), NumberField(cumulativeUs, 10), c);
    EmittedFields(selfUs, cumulativeUs, level, name);
  }

  /** The three fields of an emitted line are the two numbers and the indented name. */
  lemma EmittedFields(selfUs: int, cumulativeUs: int, level: nat, name: string)
    requires name == [] || !IsSpace(name[0])
    ensures ParseFields([NumberField(selfUs, 9), NumberField(cumulativeUs, 10), NameField(level, name)])
         == Entry(selfUs, cumulativeUs, name, 1 + 2 * level)
  {
    ParseNumberField(selfUs, 9);
    ParseNumberField(cumulativeUs, 10);
    ParseFieldsOf(NumberField(selfUs, 9), NumberField(cumulativeUs, 10), NameField(level, name), selfUs, cumulativeUs);
    LTrimSpaces(1 + 2 * level, name, IsSpace);
  }

  /** Three fields whose first two are integers make an entry. */
  lemma ParseFieldsOf(a: string, b: string, c: string, s: int, t: int)
    requires ParseInt(a) == Some(s) && ParseInt(b) == Some(t)
    ensures ParseFields([a, b, c]) == Entry(s, t, LStrip(c), |c| - |LStrip(c)|)
  {
  }

  /** The threshold the pop loop compares the stack length against:
      `(len(name_s) - len(name) - 1) / 2 + 1` in Python's true division. */
  function DepthThreshold(indent: nat): real {
    (indent - 1) as real / 2.0 + 1.0
  }

  /** The stack length the pop loop stops at, as a whole number. */
  function Level(indent: nat): nat {
    (indent + 1) / 2
  }

  /** A stack of `height` entries is popped exactly when it is longer than Level(indent):
      for an odd indent the threshold is a whole number, for an even one it is k + 1/2 and the
      comparison behaves like a comparison with k. */
  lemma AboveThreshold(indent: nat, height: int)
    ensures height as real > DepthThreshold(indent) <==> height > Level(indent)
  {
    var q := (indent + 1) / 2;
    assert indent + 1 == 2 * q || indent + 1 == 2 * q + 1;
  }

  /** Levels are what the interpreter's indentation means: indent 1 + 2 * level is level + 1
      (one more than the number of enclosing imports, because the root sits below the top level),
      and an indent of 0, a name field with no space after `|`, leaves no stack at all. */
  lemma LevelOfIndent(level: nat)
    ensures Level(1 + 2 * level) == level + 1
    ensures Level(2 + 2 * level) == level + 1
    ensures Level(0) == 0
  {
  }
}
