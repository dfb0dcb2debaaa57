/** The line rule of `GeneralUtil.create_yaml_template`: turn a filled-in `.yaml` file
    into an empty template by keeping blank and comment lines, dropping lines without
    a key and blanking every value to `key:` (or `key: []` for a list). */
module YamlTemplate {
  import opened Wrappers
  import opened Text

  // ---------------------------------------------------------------------------
  // Lines, as `readlines` produces them
  // ---------------------------------------------------------------------------

  /** A newline can only be the last character of a line. */
  predicate IsLine(line: string)
  {
    forall k :: 0 <= k < |line| - 1 ==> line[k] != '\n'
  }

  predicate EndsWithNewline(line: string)
  {
    |line| > 0 && line[|line| - 1] == '\n'
  }

  /** The line's trailing newline, if it has one. */
  function NewlineOf(line: string): (nl: string)
    ensures nl == "\n" || nl == ""
    ensures nl == "\n" <==> EndsWithNewline(line)
  {
    if EndsWithNewline(line) then "\n" else ""
  }

  /** Length of the leading run of non-newline characters of `s`: what a greedy `.+`
      consumes, since Python's `.` does not match a newline. */
  function NonNewlineRun(s: string): (n: nat)
    ensures n <= |s|
    ensures forall k :: 0 <= k < n ==> s[k] != '\n'
    ensures n < |s| ==> s[n] == '\n'
  {
    if s == [] || s[0] == '\n' then 0 else 1 + NonNewlineRun(s[1..])
  }

  /** `fp.readlines()` applied to the text of a file: every line ends just after its
      newline, the last one possibly without a newline; an empty text has no lines. */
  function ReadLines(text: string): (lines: seq<string>)
    ensures IsReadLines(lines)
    decreases |text|
  {
    if text == [] then []
    else
      var n := NonNewlineRun(text);
      if n == |text| then [text]
      else [text[..n + 1]] + ReadLines(text[n + 1..])
  }

  /** What `readlines` can return: non-empty lines, every one but the last ending in a newline. */
  predicate IsReadLines(lines: seq<string>)
  {
    forall k :: 0 <= k < |lines| ==>
      lines[k] != [] && IsLine(lines[k]) && (k < |lines| - 1 ==> EndsWithNewline(lines[k]))
  }

  /** Joining what `readlines` returns gives back the text. */
  lemma {:induction false} ConcatReadLines(text: string)
    ensures Concat(ReadLines(text)) == text
    decreases |text|
  {
    if text != [] {
      var n := NonNewlineRun(text);
      if n < |text| {
        ConcatReadLines(text[n + 1..]);
        assert text[..n + 1] + text[n + 1..] == text;
      }
    }
  }

  /** Reading the join of lines that `readlines` could have returned gives back those lines. */
  lemma {:induction false} ReadLinesConcat(lines: seq<string>)
    requires IsReadLines(lines)
    ensures ReadLines(Concat(lines)) == lines
    decreases |lines|
  {
    if lines != [] {
      var line, rest := lines[0], Concat(lines[1..]);
      var text := line + rest;
      assert IsReadLines(lines[1..]) by {
        forall k | 0 <= k < |lines| - 1
          ensures lines[1..][k] != [] && IsLine(lines[1..][k])
            && (k < |lines| - 2 ==> EndsWithNewline(lines[1..][k]))
        {
          assert lines[1..][k] == lines[k + 1];
        }
      }
      ReadLinesConcat(lines[1..]);
      RunOfLine(line, rest);
      var n := NonNewlineRun(text);
      if |lines| == 1 {
        assert rest == [];
        assert text == line;
        if n < |text| {
          assert text[..n + 1] == line;
          assert text[n + 1..] == [];
        }
      } else {
        assert EndsWithNewline(line);
        assert n + 1 == |line|;
        assert text[..n + 1] == line;
        assert text[n + 1..] == rest;
      }
    }
  }

  /** The newline-free run at the start of `line + rest` stops at the line's own newline. */
  lemma RunOfLine(line: string, rest: string)
    requires line != [] && IsLine(line)
    ensures EndsWithNewline(line) ==> NonNewlineRun(line + rest) == |line| - 1
    ensures !EndsWithNewline(line) && rest == [] ==> NonNewlineRun(line + rest) == |line|
  {
    var s := line + rest;
    assert forall k :: 0 <= k < |line| ==> s[k] == line[k];
  }

  // ---------------------------------------------------------------------------
  // re.sub(':.+', repl, line)
  // ---------------------------------------------------------------------------

  /** A match of `:.+` can start at `k`: a colon followed by a non-newline character. */
  predicate OpensValue(line: string, k: int)
  {
    0 <= k && k + 1 < |line| && line[k] == ':' && line[k + 1] != '\n'
  }

  /** `re.sub(':.+', repl, s)`, scanning left to right: at each position where a match
      starts, the colon and the greedy run of non-newline characters after it are
      replaced by `repl` and the scan resumes after them; elsewhere the character is
      copied. The pattern cannot match the empty string. */
  function SubColonRest(s: string, repl: string): (r: string)
    ensures ':' !in s ==> r == s
    decreases |s|
  {
    if s == [] then []
    else if s[0] == ':' && NonNewlineRun(s[1..]) > 0 then
      repl + SubColonRest(s[1 + NonNewlineRun(s[1..])..], repl)
    else [s[0]] + SubColonRest(s[1..], repl)
  }

  /** The first position from `from` on where `:.+` matches, if any. */
  function FirstValueColonFrom(line: string, from: nat): (r: Option<nat>)
    ensures r.Some? ==> from <= r.value && OpensValue(line, r.value)
    ensures r.Some? ==> forall k :: from <= k < r.value ==> !OpensValue(line, k)
    ensures r.None? ==> forall k :: from <= k ==> !OpensValue(line, k)
    decreases |line| - from
  {
    if from + 1 >= |line| then None
    else if OpensValue(line, from) then Some(from)
    else FirstValueColonFrom(line, from + 1)
  }

  /** Where the single match of `:.+` in a line starts, if the line has one. */
  function FirstValueColon(line: string): (r: Option<nat>)
    ensures r.Some? ==> OpensValue(line, r.value)
    ensures r.Some? ==> forall k :: 0 <= k < r.value ==> !OpensValue(line, k)
    ensures r.None? ==> forall k :: 0 <= k < |line| ==> !OpensValue(line, k)
  {
    FirstValueColonFrom(line, 0)
  }

  /** The first match is determined by being a match with none before it. */
  lemma FirstValueColonIs(line: string, i: nat)
    requires OpensValue(line, i)
    requires forall k :: 0 <= k < i ==> !OpensValue(line, k)
    ensures FirstValueColon(line) == Some(i)
  {
  }

  /** Without a match the substitution leaves the string alone. */
  lemma {:induction false} SubWithoutMatch(s: string, repl: string)
    requires forall k :: 0 <= k < |s| ==> !OpensValue(s, k)
    ensures SubColonRest(s, repl) == s
    decreases |s|
  {
    if s != [] {
      assert !OpensValue(s, 0);
      assert s[0] == ':' ==> NonNewlineRun(s[1..]) == 0;
      forall k | 0 <= k < |s[1..]| ensures !OpensValue(s[1..], k) {
        assert !OpensValue(s, k + 1);
      }
      SubWithoutMatch(s[1..], repl);
      assert [s[0]] + s[1..] == s;
    }
  }

  /** On a line, the first match runs to the newline or the end: everything from the
      match on, except the trailing newline, is replaced. */
  lemma {:induction false} SubAtFirstMatch(s: string, repl: string, i: nat)
    requires IsLine(s)
    requires OpensValue(s, i)
    requires forall k :: 0 <= k < i ==> !OpensValue(s, k)
    ensures SubColonRest(s, repl) == s[..i] + repl + NewlineOf(s)
    decreases i
  {
    if i == 0 {
      SubAtLineStart(s, repl);
    } else {
      var t := s[1..];
      ShiftLine(s);
      forall k | 0 <= k < i - 1 ensures !OpensValue(t, k) {
        assert !OpensValue(s, k + 1);
      }
      SubAtFirstMatch(t, repl, i - 1);
      SubPastFirst(s, repl, i);
    }
  }

  /** The induction step of `SubAtFirstMatch`: a character before the match is copied. */
  lemma SubPastFirst(s: string, repl: string, i: nat)
    requires 0 < i < |s| && !OpensValue(s, 0)
    requires NewlineOf(s[1..]) == NewlineOf(s)
    requires SubColonRest(s[1..], repl) == s[1..][..i - 1] + repl + NewlineOf(s[1..])
    ensures SubColonRest(s, repl) == s[..i] + repl + NewlineOf(s)
  {
    var key := s[1..][..i - 1];
    SubCopiesFirst(s, repl);
    assert s[..i] == [s[0]] + key;
    PrependToKey(s[0], key, repl, NewlineOf(s), s[..i]);
  }

  lemma PrependToKey(c: char, key: string, repl: string, nl: string, prefix: string)
    requires prefix == [c] + key
    ensures [c] + (key + repl + nl) == prefix + repl + nl
  {
  }

  /** Where no match starts, the substitution copies the first character. */
  lemma SubCopiesFirst(s: string, repl: string)
    requires s != [] && !OpensValue(s, 0)
    ensures SubColonRest(s, repl) == [s[0]] + SubColonRest(s[1..], repl)
  {
    assert s[0] == ':' ==> NonNewlineRun(s[1..]) == 0;
  }

  /** Dropping the first character of a line of two or more characters keeps a line,
      its newline, and shifts every match position down by one. */
  lemma ShiftLine(s: string)
    requires |s| >= 2 && IsLine(s)
    ensures IsLine(s[1..]) && NewlineOf(s[1..]) == NewlineOf(s)
    ensures forall k :: 0 <= k ==> (OpensValue(s[1..], k) <==> OpensValue(s, k + 1))
  {
    assert forall k :: 0 <= k < |s| - 1 ==> s[1..][k] == s[k + 1];
  }

  /** A match at the very start of a line takes the whole line but its newline. */
  lemma SubAtLineStart(s: string, repl: string)
    requires IsLine(s)
    requires OpensValue(s, 0)
    ensures SubColonRest(s, repl) == repl + NewlineOf(s)
  {
    var t := s[1..];
    var n := NonNewlineRun(t);
    assert forall k :: 0 <= k < |t| ==> t[k] == s[k + 1];
    if EndsWithNewline(s) {
      assert t[|t| - 1] == '\n';
      assert n == |t| - 1;
      assert s[1 + n..] == "\n";
    } else {
      assert n == |t|;
      assert s[1 + n..] == [];
    }
    assert SubColonRest(s[1 + n..], repl) == s[1 + n..];
  }

  // ---------------------------------------------------------------------------
  // The per-line rule and the loop over the lines
  // ---------------------------------------------------------------------------

  /** What the loop body contributes for one line: `None` when the line is skipped.
      A line that is exactly a newline, or contains `#`, is kept as it is; any other
      line without `:` is dropped. */
  function TemplateLine(line: string): (r: Option<string>)
    ensures line == "\n" ==> r == Some("\n")
    ensures '#' in line ==> r == Some(line)
    ensures r.None? <==> line != "\n" && '#' !in line && ':' !in line
  {
    if line == "\n" then Some("\n")
    else if '#' in line then Some(line)
    else if ':' !in line then None
    else if '[' in line then Some(SubColonRest(line, ": []"))
    else Some(SubColonRest(line, ":"))
  }

  /** The blanked form of a key line, stated by position: the text from the first
      colon that opens a value up to the newline becomes `:`, or `: []` when the line
      contains `[`; a line without such a colon is unchanged. */
  function BlankedLine(line: string): (r: string)
  {
    match FirstValueColon(line)
    case None => line
    case Some(i) => line[..i] + (if '[' in line then ": []" else ":") + NewlineOf(line)
  }

  /** The substitution in the loop body blanks a value exactly as `BlankedLine` says. */
  lemma BlankValue(line: string)
    requires IsLine(line)
    requires line != "\n" && '#' !in line && ':' in line
    ensures TemplateLine(line) == Some(BlankedLine(line))
  {
    var repl := if '[' in line then ": []" else ":";
    match FirstValueColon(line)
    case None =>
      SubWithoutMatch(line, repl);
    case Some(i) =>
      SubAtFirstMatch(line, repl, i);
  }

  /** The key in front of the first value colon holds no colon. */
  lemma KeyHasNoColon(line: string, i: nat)
    requires IsLine(line)
    requires FirstValueColon(line) == Some(i)
    ensures ':' !in line[..i]
  {
    forall j | 0 <= j < i ensures line[j] != ':' {
      assert !OpensValue(line, j);
      assert j + 1 < |line| - 1;
    }
  }

  /** The template of one line's output is that output again. */
  lemma TemplateLineIdempotent(line: string)
    requires IsLine(line)
    ensures TemplateLine(line).Some? ==>
      var out := TemplateLine(line).value;
      && out != [] && IsLine(out)
      && NewlineOf(out) == NewlineOf(line)
      && TemplateLine(out) == TemplateLine(line)
  {
    if line != "\n" && '#' !in line && ':' in line {
      BlankValue(line);
      match FirstValueColon(line)
      case None =>
      case Some(i) =>
        KeyHasNoColon(line, i);
        var key, nl := line[..i], NewlineOf(line);
        if '[' in line {
          BlankedIsFixed(key, ": []", nl);
        } else {
          assert '[' !in key by {
            forall j | 0 <= j < i ensures key[j] != '[' { assert key[j] == line[j]; }
          }
          BlankedIsFixed(key, ":", nl);
        }
    }
  }

  /** A blanked line `key` + `: []` or `:` + newline is a fixed point of the rule. */
  lemma BlankedIsFixed(key: string, blank: string, nl: string)
    requires ':' !in key && '#' !in key && '\n' !in key
    requires blank == ": []" || (blank == ":" && '[' !in key)
    requires nl == "\n" || nl == ""
    ensures var out := key + blank + nl;
      && IsLine(out) && NewlineOf(out) == nl
      && TemplateLine(out) == Some(out)
  {
    var out := key + blank + nl;
    var i := |key|;
    assert out[i] == ':';
    assert forall k :: 0 <= k < i ==> out[k] == key[k];
    assert forall k :: 0 <= k < i ==> !OpensValue(out, k);
    assert ':' in out;
    assert '#' !in out by {
      forall k | 0 <= k < |out| ensures out[k] != '#' {
        if k < i { assert out[k] == key[k]; }
      }
    }
    assert IsLine(out) by {
      forall k | 0 <= k < |out| - 1 ensures out[k] != '\n' {
        if k < i { assert out[k] == key[k]; }
      }
    }
    assert out != "\n";
    if blank == ": []" {
      assert out[i + 1] == ' ';
      assert '[' in out by { assert out[i + 2] == '['; }
      FirstValueColonIs(out, i);
      assert out[..i] == key;
      BlankValue(out);
    } else {
      assert '[' !in out by {
        forall k | 0 <= k < |out| ensures out[k] != '[' {
          if k < i { assert out[k] == key[k]; }
        }
      }
      forall k | 0 <= k < |out| ensures !OpensValue(out, k) {
        if k == i { assert k + 1 < |out| ==> out[k + 1] == '\n'; }
      }
      SubWithoutMatch(out, ":");
    }
  }

  /** The lines one line contributes to the template. */
  function Emitted(r: Option<string>): (lines: seq<string>)
    ensures |lines| <= 1
  {
    if r.Some? then [r.value] else []
  }

  /** The template of a list of lines: each line's contribution, in input order. */
  function Template(env: seq<string>): (template: seq<string>)
    ensures |template| <= |env|
  {
    if env == [] then [] else Emitted(TemplateLine(env[0])) + Template(env[1..])
  }

  /** The template of a concatenation is the concatenation of the templates: lines are
      treated one at a time and survivors keep their order. */
  lemma {:induction false} TemplateAppend(a: seq<string>, b: seq<string>)
    ensures Template(a + b) == Template(a) + Template(b)
    decreases |a|
  {
    if a == [] {
      assert a + b == b;
    } else {
      assert (a + b)[0] == a[0];
      assert (a + b)[1..] == a[1..] + b;
      TemplateAppend(a[1..], b);
    }
  }

  /** The loop of `create_yaml_template` building the `template` list. */
  method CreateTemplate(env: seq<string>) returns (template: seq<string>)
    ensures template == Template(env)
  {
    template := [];
    for i := 0 to |env|
      invariant template == Template(env[..i])
    {
      var line := env[i];
      assert env[..i + 1] == env[..i] + [line];
      TemplateAppend(env[..i], [line]);
      assert Template([line]) == Emitted(TemplateLine(line)) + Template([]);
      if line == "\n" {
        template := template + ["\n"];
      } else if '#' in line {
        template := template + [line];
      } else if ':' !in line {
        continue;
      } else {
        if '[' in line {
          line := SubColonRest(line, ": []");
        } else {
          line := SubColonRest(line, ":");
        }
        template := template + [line];
      }
    }
    assert env[..|env|] == env;
  }

  /** Applying the rule to a template changes nothing. */
  lemma {:induction false} TemplateIdempotent(env: seq<string>)
    requires forall k :: 0 <= k < |env| ==> IsLine(env[k])
    ensures Template(Template(env)) == Template(env)
    decreases |env|
  {
    if env != [] {
      var first := Emitted(TemplateLine(env[0]));
      TemplateIdempotent(env[1..]);
      TemplateAppend(first, Template(env[1..]));
      TemplateLineIdempotent(env[0]);
      if first != [] {
        assert Template(first) == Emitted(TemplateLine(first[0])) + Template([]);
      }
    }
  }

  /** The template of lines `readlines` could return could itself be returned by `readlines`. */
  lemma {:induction false} TemplateIsReadLines(env: seq<string>)
    requires IsReadLines(env)
    ensures IsReadLines(Template(env))
    decreases |env|
  {
    if env != [] {
      var first := Emitted(TemplateLine(env[0]));
      var rest := Template(env[1..]);
      assert IsReadLines(env[1..]) by {
        forall k | 0 <= k < |env| - 1
          ensures env[1..][k] != [] && IsLine(env[1..][k])
            && (k < |env| - 2 ==> EndsWithNewline(env[1..][k]))
        {
          assert env[1..][k] == env[k + 1];
        }
      }
      TemplateIsReadLines(env[1..]);
      TemplateLineIdempotent(env[0]);
      var t := first + rest;
      assert rest != [] ==> |env| > 1;
      forall k | 0 <= k < |t|
        ensures t[k] != [] && IsLine(t[k]) && (k < |t| - 1 ==> EndsWithNewline(t[k]))
      {
        if k >= |first| { assert t[k] == rest[k - |first|]; }
      }
    }
  }

  // ---------------------------------------------------------------------------
  // The whole file
  // ---------------------------------------------------------------------------

  /** The text `create_yaml_template` writes, given the text it reads. */
  function YamlTemplateText(input: string): string
  {
    Concat(Template(ReadLines(input)))
  }

  /** `create_yaml_template` with the two files given as their text. */
  method CreateYamlTemplate(input: string) returns (output: string)
    ensures output == YamlTemplateText(input)
  {
    var env := ReadLines(input);
    var template := CreateTemplate(env);
    output := Concat(template);
  }

  /** Making a template of a template gives the same file. */
  lemma YamlTemplateTextIdempotent(input: string)
    ensures YamlTemplateText(YamlTemplateText(input)) == YamlTemplateText(input)
  {
    var env := ReadLines(input);
    var env' := Template(env);
    TemplateIsReadLines(env);
    ReadLinesConcat(env');
    TemplateIdempotent(env);
  }
}
