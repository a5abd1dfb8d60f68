/** Reading a quoted translation value (scripts/gen_i18n.py, _unescape_yaml_value), and what the
    escapes in it mean for the literal printed later. */
module YamlValues {
  import opened Utf8
  import opened CppLiterals
  import opened I18nEscape

  datatype Unescaped = Text(text: string) | UnknownEscape(line: nat, next: char)

  /** The character an escape stands for. */
  function EscapedChar(next: char): Option<char> {
    if next == '\\' then Some('\\') else if next == '"' then Some('"') else if next == 'n' then Some(NEWLINE) else None
  }

  function After(prefix: string, u: Unescaped): Unescaped {
    if u.Text? then Text(prefix + u.text) else u
  }

  function Unescape(raw: string, line: nat): Unescaped
    decreases |raw|
  {
    if raw == "" then Text("")
    else if raw[0] == '\\' && |raw| > 1 then
      match EscapedChar(raw[1])
      case Some(c) => After([c], Unescape(raw[2..], line))
      case None => UnknownEscape(line, raw[1])
    else After(raw[..1], Unescape(raw[1..], line))
  }

  lemma AfterTwice(a: string, b: string, u: Unescaped)
    ensures After(a, After(b, u)) == After(a + b, u)
  {
    if u.Text? {
      assert a + (b + u.text) == (a + b) + u.text;
    }
  }

  method UnescapeYamlValue(raw: string, line: nat) returns (r: Unescaped)
    ensures r == Unescape(raw, line)
  {
    var result := "";
    var i := 0;
    assert raw[0..] == raw;
    assert Unescape(raw, line).Text? ==> "" + Unescape(raw, line).text == Unescape(raw, line).text;
    while i < |raw|
      invariant 0 <= i <= |raw|
      invariant After(result, Unescape(raw[i..], line)) == Unescape(raw, line)
    {
      Peel(raw, i, 1);
      if raw[i] == '\\' && i + 1 < |raw| {
        var nxt := raw[i + 1];
        Peel(raw, i, 2);
        var c;
        if nxt == '\\' {
          c := '\\';
        } else if nxt == '"' {
          c := '"';
        } else if nxt == 'n' {
          c := NEWLINE;
        } else {
          return UnknownEscape(line, nxt);
        }
        AfterTwice(result, [c], Unescape(raw[i + 2..], line));
        result := result + [c];
        i := i + 2;
      } else {
        assert raw[i..][..1] == [raw[i]];
        AfterTwice(result, [raw[i]], Unescape(raw[i + 1..], line));
        result := result + [raw[i]];
        i := i + 1;
      }
    }
    assert result + "" == result;
    return Text(result);
  }

  /** How a text is written with the three documented escapes. */
  function Quote(text: string): string {
    if text == "" then "" else QuoteChar(text[0]) + Quote(text[1..])
  }

  function QuoteChar(c: char): string {
    if c == '\\' then "\\\\" else if c == '"' then "\\\"" else if c == NEWLINE then "\\n" else [c]
  }

  lemma QuotedCharIsReadBack(c: char, rest: string, line: nat)
    ensures Unescape(QuoteChar(c) + rest, line) == After([c], Unescape(rest, line))
  {
    var q := QuoteChar(c) + rest;
    assert q[|QuoteChar(c)|..] == rest;
    if |QuoteChar(c)| == 1 {
      assert q[..1] == [c];
    }
  }

  /** For every text: written with the documented escapes, it is read back unchanged, and the
      writing has no newline, so it fits on the line of a value. */
  lemma {:induction false} QuotedIsReadBack(text: string, line: nat)
    ensures Unescape(Quote(text), line) == Text(text)
    ensures NEWLINE !in Quote(text)
  {
    hide Unescape;
    if text == "" {
      assert Unescape("", line) == Text("") by { NothingIsRead(line); }
    } else {
      QuotedIsReadBack(text[1..], line);
      QuotedCharIsReadBack(text[0], Quote(text[1..]), line);
      assert text == [text[0]] + text[1..];
    }
  }

  lemma NothingIsRead(line: nat)
    ensures Unescape("", line) == Text("")
  {
  }

  /** An escape begins at i: the backslash there is not the second character of another escape. */
  predicate EscapeAt(raw: string, i: int)
    decreases i
  {
    0 <= i && i + 1 < |raw| && raw[i] == '\\' && !EscapeAt(raw, i - 1)
  }

  predicate BadEscapeAt(raw: string, i: int) {
    EscapeAt(raw, i) && EscapedChar(raw[i + 1]).None?
  }

  lemma {:induction false} EscapeAtShift(raw: string, d: nat, i: int)
    requires 1 <= d <= |raw| && i >= d && !EscapeAt(raw, d - 1)
    ensures EscapeAt(raw, i) <==> EscapeAt(raw[d..], i - d)
    decreases i
  {
    if i > d {
      EscapeAtShift(raw, d, i - 1);
    }
  }

  /** A value is refused exactly when some escape in it is none of the three. */
  lemma {:induction false} RefusedExactly(raw: string, line: nat)
    ensures Unescape(raw, line).UnknownEscape? <==> exists i :: BadEscapeAt(raw, i)
    decreases |raw|
  {
    if raw != "" {
      var d := if raw[0] == '\\' && |raw| > 1 then 2 else 1;
      if d == 2 {
        assert EscapeAt(raw, 0);
        assert BadEscapeAt(raw, 0) <==> EscapedChar(raw[1]).None?;
      }
      assert !EscapeAt(raw, d - 1);
      RefusedExactly(raw[d..], line);
      if i :| BadEscapeAt(raw, i) {
        if i >= d {
          EscapeAtShift(raw, d, i);
          assert BadEscapeAt(raw[d..], i - d);
        }
      }
      if j :| BadEscapeAt(raw[d..], j) {
        EscapeAtShift(raw, d, j + d);
        assert BadEscapeAt(raw, j + d);
      }
    }
  }

  /** Two backslashes side by side, or one at the end. */
  ghost predicate WritesBackslash(raw: string) {
    raw != "" && (raw[|raw| - 1] == '\\' || exists i :: TwoBackslashesAt(raw, i))
  }

  predicate TwoBackslashesAt(raw: string, i: int) {
    0 <= i && i + 1 < |raw| && raw[i] == '\\' && raw[i + 1] == '\\'
  }

  lemma WritesBackslashStep(raw: string)
    requires raw != ""
    ensures raw[0] != '\\' ==> (WritesBackslash(raw) <==> WritesBackslash(raw[1..]))
    ensures |raw| > 1 && raw[0] == '\\' && raw[1] != '\\' ==> (WritesBackslash(raw) <==> WritesBackslash(raw[2..]))
  {
    if i :| TwoBackslashesAt(raw, i) {
      assert i >= 1 ==> TwoBackslashesAt(raw[1..], i - 1);
      assert i >= 2 ==> TwoBackslashesAt(raw[2..], i - 2);
    }
    if j :| TwoBackslashesAt(raw[1..], j) {
      assert TwoBackslashesAt(raw, j + 1);
    }
    if |raw| > 1 {
      if j :| TwoBackslashesAt(raw[2..], j) {
        assert TwoBackslashesAt(raw, j + 2);
      }
    }
  }

  /** A backslash reaches the text exactly when the value writes one. */
  lemma {:induction false} BackslashComesFromWriting(raw: string, line: nat)
    requires Unescape(raw, line).Text?
    ensures '\\' in Unescape(raw, line).text <==> WritesBackslash(raw)
    decreases |raw|
  {
    if raw != "" {
      WritesBackslashStep(raw);
      if raw[0] == '\\' && |raw| > 1 {
        BackslashComesFromWriting(raw[2..], line);
        if raw[1] == '\\' {
          assert TwoBackslashesAt(raw, 0);
        }
      } else {
        BackslashComesFromWriting(raw[1..], line);
      }
    }
  }

  /** A value that writes no backslash comes out of the printed segments as itself. */
  lemma PlainValueIsPrinted(raw: string, line: nat)
    requires Unescape(raw, line).Text? && !WritesBackslash(raw)
    ensures var text := Unescape(raw, line).text; DecodeAll(WithNul(Escape(text))) == Some(Encode(text) + [0])
  {
    var text := Unescape(raw, line).text;
    BackslashComesFromWriting(raw, line);
    BackslashFreeIsHarmless(text);
    EntryRoundTrips(text);
  }

  /** An escaped backslash before an n is read as those two characters but printed as a newline. */
  lemma EscapedBackslashIsLost(line: nat)
    ensures Unescape("\\\\n", line) == Text("\\n") && Unescape("\\n", line) == Text([NEWLINE])
    ensures DecodeAll(WithNul(Escape("\\n"))) == DecodeAll(WithNul(Escape([NEWLINE])))
  {
    var raw := "\\\\n";
    assert raw[2..] == "n" && "n"[1..] == "" && "n"[..1] == "n" && "\\n"[2..] == "";
    assert "n" + "" == "n" && [NEWLINE] + "" == [NEWLINE] && "\\" + "n" == "\\n";
    BackslashIsReinterpreted();
    EntryMeans([NEWLINE]);
    MeaningOfPlain([NEWLINE]);
    assert [NEWLINE][1..] == "" && [10] + [0] == [10, 0] && EncodeChar(NEWLINE) == [10];
  }
}
