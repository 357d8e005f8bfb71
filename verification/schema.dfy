/** Message schemas and how they are derived from ROS 2 IDL files:
    the field-type classifier (`to_field_type`), the line-based IDL parser
    (`parse_idl_to_schema`), the IDL file lookup under `AMENT_PREFIX_PATH`
    (`find_ros_idl_path`) and their composition (`MessageSchema::try_from`).

    The environment variable, the file-existence test and the file contents
    are parameters, so every operation here is a pure function. */
module Schema {
  import opened Errors
  import opened Strings

  /** How a field is laid out: a single value, a length-prefixed sequence,
      or an array whose length the schema fixes. `typeName` is the element
      type in every case. */
  datatype FieldType =
    | Object(typeName: string)
    | Sequence(typeName: string)
    | Array(typeName: string, length: nat)

  datatype MessageField = MessageField(name: string, fieldType: FieldType)

  /** A message type (`foo_msgs/msg/Foo`) and its fields in wire order. */
  datatype MessageSchema = MessageSchema(typeName: string, fields: seq<MessageField>)

  /** `FieldType::is_iterable`: the field decodes to a list. */
  predicate IsIterable(ft: FieldType) {
    !ft.Object?
  }

  /** `usize::MAX + 1` on the 64-bit targets the tool is built for. */
  const UsizeLimit: nat := 0x1_0000_0000_0000_0000

  // ---------------------------------------------------------------------
  // "::" -> "/"

  /** No `:` is directly followed by another. (Two bound indices keep the
      quantifier from generating the index of the next character.) */
  ghost predicate NoDoubleColon(s: string) {
    forall i, j {:trigger s[i], s[j]} :: 0 <= i && j == i + 1 && j < |s| ==> !(s[i] == ':' && s[j] == ':')
  }

  /** `s.replace("::", "/")`: IDL scope separators become the path-style
      separators of ROS type names, scanning left to right without overlap. */
  function NormalizeScope(s: string): (r: string)
    ensures NoDoubleColon(r)
    ensures NoDoubleColon(s) ==> r == s
    ensures |r| > 0 && r[0] == ':' ==> |s| > 0 && s[0] == ':' && (|s| == 1 || s[1] != ':')
  {
    if |s| >= 2 && s[0] == ':' && s[1] == ':' then "/" + NormalizeScope(s[2..])
    else if |s| == 0 then ""
    else
      var rest := NormalizeScope(s[1..]);
      assert NoDoubleColon(s) ==> NoDoubleColon(s[1..]) by {
        if NoDoubleColon(s) {
          forall i, j | 0 <= i && j == i + 1 && j < |s| - 1
            ensures !(s[1..][i] == ':' && s[1..][j] == ':')
          {
            assert s[1..][i] == s[i + 1] && s[1..][j] == s[j + 1];
          }
        }
      }
      var r := [s[0]] + rest;
      forall i, j | 0 <= i && j == i + 1 && j < |r|
        ensures !(r[i] == ':' && r[j] == ':')
      {
        if i > 0 {
          assert r[i] == rest[i - 1] && r[j] == rest[i];
        }
      }
      r
  }

  /** Replacement scans left to right without overlap: when `a` does not
      end in `:`, the `::` that follows it is the next separator, and the two
      sides are rewritten independently. Together with `NoDoubleColon(s) ==>
      NormalizeScope(s) == s` this determines `NormalizeScope` everywhere. */
  lemma {:induction false} NormalizeScopeSplit(a: string, b: string)
    requires |a| == 0 || a[|a| - 1] != ':'
    ensures NormalizeScope(a + "::" + b) == NormalizeScope(a) + "/" + NormalizeScope(b)
    decreases |a|
  {
    var s := a + "::" + b;
    if |a| == 0 {
      assert s[2..] == b;
    } else if |a| >= 2 && a[0] == ':' && a[1] == ':' {
      assert s[2..] == a[2..] + "::" + b;
      NormalizeScopeSplit(a[2..], b);
      NormalizeScopeSeparator(s);
      NormalizeScopeSeparator(a);
      Regroup("/", NormalizeScope(a[2..]), NormalizeScope(b));
    } else {
      assert s[1..] == a[1..] + "::" + b;
      NormalizeScopeSplit(a[1..], b);
      NormalizeScopeChar(s);
      NormalizeScopeChar(a);
      Regroup([a[0]], NormalizeScope(a[1..]), NormalizeScope(b));
    }
  }

  lemma {:induction false} NormalizeScopeSeparator(s: string)
    requires |s| >= 2 && s[0] == ':' && s[1] == ':'
    ensures NormalizeScope(s) == "/" + NormalizeScope(s[2..])
  {
  }

  lemma {:induction false} NormalizeScopeChar(s: string)
    requires |s| > 0 && !(|s| >= 2 && s[0] == ':' && s[1] == ':')
    ensures NormalizeScope(s) == [s[0]] + NormalizeScope(s[1..])
  {
  }

  /** Regrouping a split around one separator, kept apart from the facts
      about `NormalizeScope` so that the solver sees only the sequences. */
  lemma {:induction false} Regroup(p: string, x: string, y: string)
    ensures p + (x + "/" + y) == (p + x) + "/" + y
  {
  }

  // ---------------------------------------------------------------------
  // the `^(?P<type>.+)__(?P<num>\d+)$` array pattern

  /** The digits `usize::from_str` accepts: ASCII `0` to `9` only. */
  predicate IsAsciiDigit(c: char) {
    '0' <= c <= '9'
  }

  /** The first code point of each run of ten decimal digits outside ASCII
      (general category `Nd`, as listed by Unicode 15.0), in four tables by
      magnitude: below U+1000, below U+10000, below U+1D000, and above. */
  const NarrowDigitRuns: seq<int> := [
    0x660, 0x6F0, 0x7C0, 0x966, 0x9E6, 0xA66, 0xAE6, 0xB66,
    0xBE6, 0xC66, 0xCE6, 0xD66, 0xDE6, 0xE50, 0xED0, 0xF20
  ]

  const BmpDigitRuns: seq<int> := [
    0x1040, 0x1090, 0x17E0, 0x1810, 0x1946, 0x19D0, 0x1A80, 0x1A90,
    0x1B50, 0x1BB0, 0x1C40, 0x1C50, 0xA620, 0xA8D0, 0xA900, 0xA9D0,
    0xA9F0, 0xAA50, 0xABF0, 0xFF10
  ]

  const SupplementaryDigitRuns: seq<int> := [
    0x104A0, 0x10D30, 0x11066, 0x110F0, 0x11136, 0x111D0, 0x112F0, 0x11450,
    0x114D0, 0x11650, 0x116C0, 0x11730, 0x118E0, 0x11950, 0x11C50, 0x11D50,
    0x11DA0, 0x11F50, 0x16A60, 0x16AC0, 0x16B50
  ]

  const MathDigitRuns: seq<int> := [
    0x1D7CE, 0x1D7D8, 0x1D7E2, 0x1D7EC, 0x1D7F6, 0x1E140, 0x1E2F0, 0x1E4F0,
    0x1E950, 0x1FBF0
  ]

  /** `n` lies in the run of ten starting at one of `runs`. */
  predicate InDigitRun(n: int, runs: seq<int>) {
    exists k :: 0 <= k < |runs| && runs[k] <= n < runs[k] + 10
  }

  /** `\d` of the `regex` crate, which is Unicode-aware by default: a
      decimal digit of any script, `0` to `9` included. */
  predicate IsDecimalDigit(c: char) {
    var n := c as int;
    if n < 0x80 then IsAsciiDigit(c)
    else if n < 0x1000 then InDigitRun(n, NarrowDigitRuns)
    else if n < 0x1_0000 then InDigitRun(n, BmpDigitRuns)
    else if n < 0x1_D000 then InDigitRun(n, SupplementaryDigitRuns)
    else InDigitRun(n, MathDigitRuns)
  }

  predicate AllDecimalDigits(s: string) {
    forall k :: 0 <= k < |s| ==> IsDecimalDigit(s[k])
  }

  predicate AllAsciiDigits(s: string) {
    forall k :: 0 <= k < |s| ==> IsAsciiDigit(s[k])
  }

  /** The regular expression `^(.+)__(\d+)$` matches `s` with the `__` at
      index `i`: a non-empty base without line breaks (`.` does not match
      `\n`), two underscores, and a non-empty run of digits up to the end. */
  predicate MatchesArrayAt(s: string, i: int) {
    && 1 <= i && i + 2 < |s|
    && s[i] == '_' && s[i + 1] == '_'
    && AllDecimalDigits(s[i + 2..])
    && '\n' !in s[..i]
  }

  /** Number of decimal digits at the end of `s`. */
  function TrailingDigits(s: string): (n: nat)
    ensures n <= |s|
    ensures AllDecimalDigits(s[|s| - n..])
    ensures n < |s| ==> !IsDecimalDigit(s[|s| - n - 1])
  {
    if |s| > 0 && IsDecimalDigit(s[|s| - 1]) then
      var n := 1 + TrailingDigits(s[..|s| - 1]);
      assert s[|s| - n..] == s[..|s| - 1][|s| - n..] + [s[|s| - 1]];
      n
    else 0
  }

  /** Where the array pattern matches, found without backtracking: the digits
      must be the whole trailing digit run, because the character before them
      is an underscore. The pattern matches at no other index. */
  function FindArraySplit(s: string): (r: Option<nat>)
    ensures r.Some? ==> MatchesArrayAt(s, r.value)
    ensures forall i :: MatchesArrayAt(s, i) ==> r == Some(i)
  {
    var d := TrailingDigits(s);
    var i := |s| - d - 2;
    if d > 0 && i >= 1 && s[i] == '_' && s[i + 1] == '_' && '\n' !in s[..i] then
      assert s[i + 2..] == s[|s| - d..];
      Some(i)
    else
      assert forall j :: MatchesArrayAt(s, j) ==> j == i by {
        forall j | MatchesArrayAt(s, j) ensures j == i {
          DigitRunAt(s, j, d);
        }
      }
      None
  }

  /** A match at `j` fixes the trailing digit run to start at `j + 2`. */
  lemma {:induction false} DigitRunAt(s: string, j: int, d: nat)
    requires MatchesArrayAt(s, j)
    requires d == TrailingDigits(s)
    ensures j == |s| - d - 2
  {
  }

  /** The value of a run of ASCII digits, most significant first. */
  function DecimalValue(ds: string): nat
    requires AllAsciiDigits(ds)
  {
    if |ds| == 0 then 0
    else 10 * DecimalValue(ds[..|ds| - 1]) + (ds[|ds| - 1] as int - '0' as int)
  }

  /** `n` written in decimal with ASCII digits and no leading zeros. */
  function DecimalDigits(n: nat): (ds: string)
    ensures |ds| > 0 && AllAsciiDigits(ds)
    ensures DecimalValue(ds) == n
  {
    var d := ['0' + (n % 10) as char];
    if n < 10 then d
    else
      var ds := DecimalDigits(n / 10) + d;
      assert ds[..|ds| - 1] == DecimalDigits(n / 10);
      ds
  }

  /** `ds.parse::<usize>().unwrap_or(0)` on the digit run the pattern
      captured: its value when every digit is ASCII and the value fits in a
      `usize`, and 0 otherwise (a digit from another script is an invalid
      digit to the parser, a value too large is an overflow). */
  function ParseUsizeOrZero(ds: string): (n: nat)
    requires AllDecimalDigits(ds)
    ensures n < UsizeLimit
    ensures AllAsciiDigits(ds) && DecimalValue(ds) < UsizeLimit ==> n == DecimalValue(ds)
    ensures !AllAsciiDigits(ds) ==> n == 0
    ensures AllAsciiDigits(ds) && DecimalValue(ds) >= UsizeLimit ==> n == 0
  {
    if AllAsciiDigits(ds) && DecimalValue(ds) < UsizeLimit then DecimalValue(ds) else 0
  }

  // ---------------------------------------------------------------------
  // to_field_type

  /** `s.starts_with("sequence<") && s.ends_with(">")` */
  predicate IsSequenceDecl(s: string) {
    "sequence<" <= s && EndsWith(s, ">")
  }

  /** `to_field_type`: classifies an IDL type declaration. The array pattern
      is tried first, then `sequence<...>`; everything else is a single
      value. Scope separators are normalised in every case. */
  function ToFieldType(s: string): (ft: FieldType)
    ensures ft.Array? <==> exists i :: MatchesArrayAt(s, i)
    ensures forall i :: MatchesArrayAt(s, i) ==>
      ft == Array(NormalizeScope(s[..i]), ParseUsizeOrZero(s[i + 2..]))
    ensures ft.Sequence? <==> !ft.Array? && IsSequenceDecl(s)
    ensures ft.Sequence? ==> ft.typeName == NormalizeScope(s[|"sequence<"|..|s| - 1])
    ensures ft.Object? ==> ft.typeName == NormalizeScope(s)
    ensures NoDoubleColon(ft.typeName)
  {
    match FindArraySplit(s)
    case Some(i) => Array(NormalizeScope(s[..i]), ParseUsizeOrZero(s[i + 2..]))
    case None =>
      if IsSequenceDecl(s) then Sequence(NormalizeScope(s[|"sequence<"|..|s| - 1]))
      else Object(NormalizeScope(s))
  }

  /** A declaration `<base>__<n>` is the array of `n` elements of `base`,
      whatever `base` holds (even another `__` or a `sequence<...>`), since
      the array pattern is tried first and `usize` parsing reads back the
      digits. */
  lemma {:induction false} ArrayDeclRoundTrip(base: string, n: nat)
    requires |base| > 0 && '\n' !in base && n < UsizeLimit
    ensures ToFieldType(base + "__" + DecimalDigits(n)) == Array(NormalizeScope(base), n)
  {
    var ds := DecimalDigits(n);
    var s := base + "__" + ds;
    var i := |base|;
    assert s[..i] == base && s[i + 2..] == ds;
    assert MatchesArrayAt(s, i);
  }

  /** `sequence<X>` is the sequence of `X`: it ends in `>`, so the array
      pattern cannot match it. */
  lemma {:induction false} SequenceDeclRoundTrip(x: string)
    ensures ToFieldType("sequence<" + x + ">") == Sequence(NormalizeScope(x))
  {
    var s := "sequence<" + x + ">";
    assert s[|"sequence<"|..|s| - 1] == x;
    assert "sequence<" <= s && EndsWith(s, ">");
  }

  /** A digit count too large for a `usize` parses to the fallback 0: the
      declaration is still an array, of length 0. */
  lemma {:induction false} ArrayDeclOverflow(base: string, n: nat)
    requires |base| > 0 && '\n' !in base && n >= UsizeLimit
    ensures ToFieldType(base + "__" + DecimalDigits(n)) == Array(NormalizeScope(base), 0)
  {
    var ds := DecimalDigits(n);
    var s := base + "__" + ds;
    var i := |base|;
    assert s[..i] == base && s[i + 2..] == ds;
    assert MatchesArrayAt(s, i);
  }

  /** The array pattern is tried before the sequence test, so a sequence
      declaration with an array suffix is an array of sequences. */
  lemma {:induction false} ArrayOfSequenceDecl(x: string, n: nat)
    requires '\n' !in x && n < UsizeLimit
    ensures ToFieldType("sequence<" + x + ">" + "__" + DecimalDigits(n)) == Array(NormalizeScope("sequence<" + x + ">"), n)
  {
    ArrayDeclRoundTrip("sequence<" + x + ">", n);
  }

  /** `\d` also matches the digits of other scripts, which `usize` parsing
      rejects: `a__٣` (ARABIC-INDIC DIGIT THREE) is an array of length 0,
      not a single value. */
  lemma {:induction false} NonAsciiDigitArray()
    ensures ToFieldType("a__" + ['\U{0663}']) == Array("a", 0)
  {
    var s := "a__" + ['\U{0663}'];
    assert InDigitRun(0x663, NarrowDigitRuns) by {
      assert NarrowDigitRuns[0] == 0x660;
    }
    assert s[1 + 2..] == ['\U{0663}'];
    assert MatchesArrayAt(s, 1);
    assert !IsAsciiDigit(s[1 + 2..][0]);
    assert s[..1] == "a";
    assert NoDoubleColon("a");
  }

  // ---------------------------------------------------------------------
  // parse_idl_to_schema

  /** One line of an IDL file: kept when, once trimmed, it is non-empty, ends
      in `;`, and after removing all trailing `;` splits into exactly two
      whitespace-separated tokens `<type declaration> <field name>`. */
  function ParseLine(line: string): (f: Option<MessageField>)
    ensures f.Some? ==> |Trim(line)| > 0 && Trim(line)[|Trim(line)| - 1] == ';'
    ensures f.Some? ==> |f.value.name| > 0 && HasNoWhitespace(f.value.name)
  {
    var t := Trim(line);
    if |t| == 0 || t[|t| - 1] != ';' then None
    else
      var body := TrimEndChar(t, ';');
      var tokens := SplitWhitespace(body);
      SplitWhitespaceWords(body);
      if |tokens| != 2 then None
      else Some(MessageField(tokens[1], ToFieldType(tokens[0])))
  }

  /** A field declaration, however it is indented and spaced and however
      many `;` close it, is the field of that name and declared type. */
  lemma {:induction false} ParseFieldLine(lead: string, decl: string, gap: string, name: string, semis: string, trail: string)
    requires AllWhitespace(lead) && AllWhitespace(trail)
    requires |gap| > 0 && AllWhitespace(gap)
    requires |decl| > 0 && HasNoWhitespace(decl)
    requires |name| > 0 && HasNoWhitespace(name) && name[|name| - 1] != ';'
    requires |semis| > 0 && forall i :: 0 <= i < |semis| ==> semis[i] == ';'
    ensures ParseLine(lead + decl + gap + name + semis + trail) == Some(MessageField(name, ToFieldType(decl)))
  {
    var body := decl + gap + name;
    var x := body + semis;
    assert lead + decl + gap + name + semis + trail == lead + x + trail;
    assert x[0] == decl[0] && x[|x| - 1] == ';';
    TrimPadded(lead, x, trail);
    TrimEndCharPadded(body, semis, ';');
    SplitWhitespaceTwo(decl, gap, name);
  }

  /** A single token closed by `;` (such as the `};` ending a struct or a
      module) declares no field. */
  lemma {:induction false} ParseWordLine(lead: string, word: string, semis: string, trail: string)
    requires AllWhitespace(lead) && AllWhitespace(trail)
    requires |word| > 0 && HasNoWhitespace(word) && word[|word| - 1] != ';'
    requires |semis| > 0 && forall i :: 0 <= i < |semis| ==> semis[i] == ';'
    ensures ParseLine(lead + word + semis + trail) == None
  {
    var x := word + semis;
    assert lead + word + semis + trail == lead + x + trail;
    assert x[0] == word[0] && x[|x| - 1] == ';';
    TrimPadded(lead, x, trail);
    TrimEndCharPadded(word, semis, ';');
    SplitWhitespaceWord(word);
  }

  /** A line with more than two tokens before its `;` declares no field,
      whatever the tokens after the first two are: a constant such as
      `const uint8 FOO = 1;` or a `typedef` is dropped. */
  lemma {:induction false} ParseLongLine(lead: string, decl: string, gap: string, name: string,
                                         gap2: string, more: string, semis: string, trail: string)
    requires AllWhitespace(lead) && AllWhitespace(trail)
    requires |gap| > 0 && AllWhitespace(gap) && |gap2| > 0 && AllWhitespace(gap2)
    requires |decl| > 0 && HasNoWhitespace(decl) && |name| > 0 && HasNoWhitespace(name)
    requires |more| > 0 && !IsWhitespace(more[0]) && !IsWhitespace(more[|more| - 1]) && more[|more| - 1] != ';'
    requires |semis| > 0 && forall i :: 0 <= i < |semis| ==> semis[i] == ';'
    ensures ParseLine(lead + decl + gap + name + gap2 + more + semis + trail) == None
  {
    var two := decl + gap + name;
    var body := two + gap2 + more;
    var x := body + semis;
    assert lead + decl + gap + name + gap2 + more + semis + trail == lead + x + trail;
    assert x[0] == decl[0] && x[|x| - 1] == ';';
    TrimPadded(lead, x, trail);
    assert body[|body| - 1] == more[|more| - 1];
    TrimEndCharPadded(body, semis, ';');
    SplitWhitespaceGap(two, gap2, more);
    SplitWhitespaceTwo(decl, gap, name);
  }

  /** The constant line above, as it appears in a generated IDL file. */
  lemma {:induction false} ParseConstLine()
    ensures ParseLine("    const uint8 FOO = 1;") == None
  {
    assert "    const uint8 FOO = 1;" == "    " + "const" + " " + "uint8" + " " + "FOO = 1" + ";" + "";
    ParseLongLine("    ", "const", " ", "uint8", " ", "FOO = 1", ";", "");
  }

  /** A line of nothing but `;` (no token at all) declares no field. */
  lemma {:induction false} ParseSemicolonLine(lead: string, semis: string, trail: string)
    requires AllWhitespace(lead) && AllWhitespace(trail)
    requires |semis| > 0 && forall i :: 0 <= i < |semis| ==> semis[i] == ';'
    ensures ParseLine(lead + semis + trail) == None
  {
    assert semis[0] == ';' && semis[|semis| - 1] == ';';
    TrimPadded(lead, semis, trail);
    TrimEndCharPadded([], semis, ';');
    assert [] + semis == semis;
  }

  /** A line whose last character is neither whitespace nor `;` (an opening
      `module ... {`, a comment) declares no field. */
  lemma {:induction false} ParseLineUnterminated(text: string, last: char)
    requires !IsWhitespace(last) && last != ';'
    ensures ParseLine(text + [last]) == None
  {
    var line := text + [last];
    TrimSlice(line);
    TrimRemovesWhitespace(line);
    var t := Trim(line);
    var lead := LeadingWhitespace(line);
    if |t| > 0 {
      assert lead + |t| == |line|;
      assert t[|t| - 1] == line[|line| - 1];
    }
  }

  /** A blank line declares no field. */
  lemma {:induction false} ParseBlankLine(line: string)
    requires AllWhitespace(line)
    ensures ParseLine(line) == None
  {
    TrimSlice(line);
    TrimRemovesWhitespace(line);
  }

  /** The `Some` results of `f` over `xs`, in order (`filter_map`). */
  function FilterMap<T, U>(f: T -> Option<U>, xs: seq<T>): (ys: seq<U>)
    ensures |ys| <= |xs|
  {
    if |xs| == 0 then []
    else (match f(xs[0]) case Some(y) => [y] case None => []) + FilterMap(f, xs[1..])
  }

  /** `FilterMap` distributes over concatenation. */
  lemma {:induction false} FilterMapAppend<T, U>(f: T -> Option<U>, a: seq<T>, b: seq<T>)
    ensures FilterMap(f, a + b) == FilterMap(f, a) + FilterMap(f, b)
  {
    if |a| > 0 {
      assert (a + b)[0] == a[0];
      assert (a + b)[1..] == a[1..] + b;
      FilterMapAppend(f, a[1..], b);
    } else {
      assert a + b == b;
    }
  }

  /** Nothing survives when `f` rejects every element. */
  lemma {:induction false} FilterMapNone<T, U>(f: T -> Option<U>, xs: seq<T>)
    requires forall i :: 0 <= i < |xs| ==> f(xs[i]).None?
    ensures FilterMap(f, xs) == []
  {
    if |xs| > 0 {
      assert f(xs[0]).None?;
      FilterMapNone(f, xs[1..]);
    }
  }

  /** The fields of the retained lines, in line order. */
  function ParseFields(lines: seq<string>): (fields: seq<MessageField>)
    ensures |fields| <= |lines|
  {
    FilterMap(ParseLine, lines)
  }

  /** Parsing distributes over concatenation: the fields of `a + b` are the
      fields of `a` followed by those of `b`, so field order is line order
      and a line's contribution does not depend on its neighbours. */
  lemma {:induction false} ParseFieldsAppend(a: seq<string>, b: seq<string>)
    ensures ParseFields(a + b) == ParseFields(a) + ParseFields(b)
  {
    FilterMapAppend(ParseLine, a, b);
  }

  /** The lines of an IDL text (`str::lines`; a trailing `\r` is whitespace
      and disappears in the trim, and a final empty line is skipped anyway). */
  function Lines(idl: string): seq<string> {
    SplitOn(idl, '\n')
  }

  /** The schema of an IDL text: the given type name, and one field per
      retained line, never more fields than lines. */
  function ParseIdlText(idl: string, typeName: string): (schema: MessageSchema)
    ensures schema.typeName == typeName
    ensures |schema.fields| <= |Lines(idl)|
  {
    MessageSchema(typeName, ParseFields(Lines(idl)))
  }

  /** The text made of the given lines has their fields, in line order. */
  lemma {:induction false} ParseIdlLines(lines: seq<string>, typeName: string)
    requires |lines| >= 1 && forall i :: 0 <= i < |lines| ==> '\n' !in lines[i]
    ensures ParseIdlText(Join(lines, '\n'), typeName) == MessageSchema(typeName, ParseFields(lines))
  {
    SplitJoin(lines, '\n');
  }

  /** `std_msgs/msg/Float64` in the layout `rosidl` generates (the generator
      comments and the documentation annotation left out). */
  const Float64IdlLines: seq<string> := [
    "module std_msgs {",
    "  module msg {",
    "    struct Float64 {",
    "      double data;",
    "    };",
    "  };",
    "};"
  ]

  /** The example of `parse_idl_to_schema`'s documentation: one field `data`
      of type `double`. */
  lemma {:induction false} Float64Example()
    ensures ParseIdlText(Join(Float64IdlLines, '\n'), "std_msgs/msg/Float64")
      == MessageSchema("std_msgs/msg/Float64", [MessageField("data", Object("double"))])
  {
    Float64NoLineBreaks();
    ParseIdlLines(Float64IdlLines, "std_msgs/msg/Float64");
    Float64Fields();
    DoubleIsObject();
  }

  lemma {:induction false} Float64NoLineBreaks()
    ensures forall i :: 0 <= i < |Float64IdlLines| ==> '\n' !in Float64IdlLines[i]
  {
    var lines := Float64IdlLines;
    forall i | 0 <= i < |lines|
      ensures '\n' !in lines[i]
    {
      var line := lines[i];
      forall k | 0 <= k < |line|
        ensures line[k] != '\n'
      {
      }
    }
  }

  /** Only the `double data;` line of the Float64 IDL declares a field. */
  lemma {:induction false} Float64Fields()
    ensures ParseFields(Float64IdlLines) == [MessageField("data", ToFieldType("double"))]
  {
    var lines := Float64IdlLines;
    Float64ModuleOpen();
    Float64MsgOpen();
    Float64StructOpen();
    Float64FieldLine();
    Float64StructClose();
    Float64MsgClose();
    Float64ModuleClose();
    var f := MessageField("data", ToFieldType("double"));
    assert ParseFields(lines[6..]) == [];
    assert ParseFields(lines[5..]) == [];
    assert ParseFields(lines[4..]) == [];
    assert ParseFields(lines[3..]) == [f];
    assert ParseFields(lines[2..]) == [f];
    assert ParseFields(lines[1..]) == [f];
  }

  lemma {:induction false} Float64ModuleOpen()
    ensures ParseLine(Float64IdlLines[0]) == None
  {
    assert Float64IdlLines[0] == "module std_msgs " + ['{'];
    ParseLineUnterminated("module std_msgs ", '{');
  }

  lemma {:induction false} Float64MsgOpen()
    ensures ParseLine(Float64IdlLines[1]) == None
  {
    assert Float64IdlLines[1] == "  module msg " + ['{'];
    ParseLineUnterminated("  module msg ", '{');
  }

  lemma {:induction false} Float64StructOpen()
    ensures ParseLine(Float64IdlLines[2]) == None
  {
    assert Float64IdlLines[2] == "    struct Float64 " + ['{'];
    ParseLineUnterminated("    struct Float64 ", '{');
  }

  lemma {:induction false} Float64FieldLine()
    ensures ParseLine(Float64IdlLines[3]) == Some(MessageField("data", ToFieldType("double")))
  {
    assert Float64IdlLines[3] == "      " + "double" + " " + "data" + ";" + "";
    ParseFieldLine("      ", "double", " ", "data", ";", "");
  }

  lemma {:induction false} Float64StructClose()
    ensures ParseLine(Float64IdlLines[4]) == None
  {
    assert Float64IdlLines[4] == "    " + "}" + ";" + "";
    ParseWordLine("    ", "}", ";", "");
  }

  lemma {:induction false} Float64MsgClose()
    ensures ParseLine(Float64IdlLines[5]) == None
  {
    assert Float64IdlLines[5] == "  " + "}" + ";" + "";
    ParseWordLine("  ", "}", ";", "");
  }

  lemma {:induction false} Float64ModuleClose()
    ensures ParseLine(Float64IdlLines[6]) == None
  {
    assert Float64IdlLines[6] == "" + "}" + ";" + "";
    ParseWordLine("", "}", ";", "");
  }

  /** `double` is a single value of the type `double`. */
  lemma {:induction false} DoubleIsObject()
    ensures ToFieldType("double") == Object("double")
  {
    assert FindArraySplit("double").None?;
    assert NoDoubleColon("double");
  }

  /** What `shellexpand::full` makes of a path: the path with `~` and
      environment variables expanded, or the message of the lookup that
      failed. */
  datatype Expansion = Expanded(path: string) | ExpansionFailed(message: string)

  /** `parse_idl_to_schema`: expands the path (a failed expansion is an
      `Other` error carrying its message), reads the file (a failed read is
      an I/O error on the expanded path) and parses its text. */
  function ParseIdlToSchema(path: string, typeName: string, expand: string -> Expansion,
                            readFile: string -> Option<string>): (r: Result<MessageSchema>)
    ensures r.Ok? <==> expand(path).Expanded? && readFile(expand(path).path).Some?
    ensures expand(path).ExpansionFailed? ==> r == Err(Other(expand(path).message))
    ensures expand(path).Expanded? && readFile(expand(path).path).None? ==>
      r == Err(Io(Unreadable(expand(path).path)))
    ensures r.Ok? ==> r.value == ParseIdlText(readFile(expand(path).path).value, typeName)
  {
    match expand(path)
    case ExpansionFailed(message) => Err(Other(message))
    case Expanded(idlPath) =>
      match readFile(idlPath)
      case None => Err(Io(Unreadable(idlPath)))
      case Some(text) => Ok(ParseIdlText(text, typeName))
  }

  // ---------------------------------------------------------------------
  // find_ros_idl_path

  /** `PathBuf::join` of a component that holds no `/`: a separator is added
      unless the path is empty or already ends in one. */
  function PathJoin(path: string, component: string): string {
    if |path| > 0 && path[|path| - 1] != '/' then path + "/" + component else path + component
  }

  /** `<base>/share/<package>/msg/<name>.idl` */
  function IdlCandidate(base: string, package: string, name: string): string {
    PathJoin(PathJoin(PathJoin(PathJoin(base, "share"), package), "msg"), name + ".idl")
  }

  /** The index of the first path that exists, if any. */
  function FirstExisting(paths: seq<string>, fileExists: string -> bool, from: nat): (r: Option<nat>)
    requires from <= |paths|
    ensures r.Some? ==> (from <= r.value < |paths| && fileExists(paths[r.value])
      && forall j :: from <= j < r.value ==> !fileExists(paths[j]))
    ensures r.None? ==> forall j :: from <= j < |paths| ==> !fileExists(paths[j])
    decreases |paths| - from
  {
    if from == |paths| then None
    else if fileExists(paths[from]) then Some(from)
    else FirstExisting(paths, fileExists, from + 1)
  }

  /** The IDL file candidates for a package and message name, one per
      `:`-separated entry of `AMENT_PREFIX_PATH`, in order. */
  function Candidates(amentPrefixPath: string, package: string, name: string): (cs: seq<string>)
    ensures |cs| == |SplitOn(amentPrefixPath, ':')|
    ensures forall k :: 0 <= k < |cs| ==> cs[k] == IdlCandidate(SplitOn(amentPrefixPath, ':')[k], package, name)
  {
    var bases := SplitOn(amentPrefixPath, ':');
    seq(|bases|, k requires 0 <= k < |bases| => IdlCandidate(bases[k], package, name))
  }

  /** `find_ros_idl_path`: the type name needs at least three `/`-separated
      parts (any beyond the third are ignored) with `msg` second; the result
      is the first candidate file that exists, and nothing when
      `AMENT_PREFIX_PATH` is unset or no candidate exists. */
  function FindRosIdlPath(typeName: string, amentPrefixPath: Option<string>, fileExists: string -> bool): (r: Option<string>)
    ensures var parts := SplitOn(typeName, '/');
      (|parts| < 3 || parts[1] != "msg" || amentPrefixPath.None?) ==> r.None?
    ensures r.Some? ==> fileExists(r.value)
    ensures var parts := SplitOn(typeName, '/');
      r.Some? ==> (|parts| >= 3 && amentPrefixPath.Some? &&
        var cs := Candidates(amentPrefixPath.value, parts[0], parts[2]);
        exists k :: 0 <= k < |cs| && r.value == cs[k] && forall j :: 0 <= j < k ==> !fileExists(cs[j]))
    ensures var parts := SplitOn(typeName, '/');
      (|parts| >= 3 && parts[1] == "msg" && amentPrefixPath.Some? && r.None?) ==>
        var cs := Candidates(amentPrefixPath.value, parts[0], parts[2]);
        forall k :: 0 <= k < |cs| ==> !fileExists(cs[k])
  {
    var parts := SplitOn(typeName, '/');
    if |parts| < 3 || parts[1] != "msg" then None
    else
      match amentPrefixPath
      case None => None
      case Some(paths) =>
        var cs := Candidates(paths, parts[0], parts[2]);
        match FirstExisting(cs, fileExists, 0)
        case None => None
        case Some(k) => Some(cs[k])
  }

  /** The parts of `<package>/<kind>/<name>`, for parts holding no `/`. */
  lemma {:induction false} TypeNameParts(package: string, kind: string, name: string)
    requires '/' !in package && '/' !in kind && '/' !in name
    ensures SplitOn(package + "/" + kind + "/" + name, '/') == [package, kind, name]
  {
    var parts := [package, kind, name];
    assert parts[1..] == [kind, name];
    assert parts[1..][1..] == [name];
    assert Join(parts[1..][1..], '/') == name;
    assert Join(parts[1..], '/') == kind + "/" + name;
    assert Join(parts, '/') == package + "/" + (kind + "/" + name);
    Regroup(package + "/", kind, name);
    SplitJoin(parts, '/');
  }

  /** With a single `AMENT_PREFIX_PATH` entry whose share directory holds the
      IDL file, a message type resolves to `<base>/share/<package>/msg/<name>.idl`. */
  lemma {:induction false} FindMessageIdl(package: string, name: string, base: string, fileExists: string -> bool)
    requires '/' !in package && '/' !in name && ':' !in base
    requires fileExists(IdlCandidate(base, package, name))
    ensures FindRosIdlPath(package + "/msg/" + name, Some(base), fileExists) == Some(IdlCandidate(base, package, name))
  {
    assert package + "/msg/" + name == package + "/" + "msg" + "/" + name;
    TypeNameParts(package, "msg", name);
    SplitJoin([base], ':');
    var cs := Candidates(base, package, name);
    assert cs == [IdlCandidate(base, package, name)];
  }

  /** Service types (`<package>/srv/<name>`) have no message IDL to find. */
  lemma {:induction false} FindServiceIdl(package: string, name: string, amentPrefixPath: Option<string>, fileExists: string -> bool)
    requires '/' !in package && '/' !in name
    ensures FindRosIdlPath(package + "/srv/" + name, amentPrefixPath, fileExists) == None
  {
    assert package + "/srv/" + name == package + "/" + "srv" + "/" + name;
    TypeNameParts(package, "srv", name);
  }

  // ---------------------------------------------------------------------
  // MessageSchema::try_from

  /** `MessageSchema::try_from(type_name)`: look the IDL file up and parse it.
      It fails with `IdlNotFound(type_name)` exactly when the lookup finds
      nothing; otherwise the schema carries the requested type name. */
  function TryFrom(typeName: string, amentPrefixPath: Option<string>, fileExists: string -> bool,
                   expand: string -> Expansion, readFile: string -> Option<string>): (r: Result<MessageSchema>)
    ensures (r == Err(IdlNotFound(typeName))) <==> FindRosIdlPath(typeName, amentPrefixPath, fileExists).None?
    ensures r.Ok? ==> r.value.typeName == typeName
    ensures r.Err? && !r.error.IdlNotFound? ==>
      var e := expand(FindRosIdlPath(typeName, amentPrefixPath, fileExists).value);
      (e.ExpansionFailed? && r.error == Other(e.message)) || (e.Expanded? && r.error == Io(Unreadable(e.path)))
  {
    match FindRosIdlPath(typeName, amentPrefixPath, fileExists)
    case None => Err(IdlNotFound(typeName))
    case Some(path) => ParseIdlToSchema(path, typeName, expand, readFile)
  }
}
