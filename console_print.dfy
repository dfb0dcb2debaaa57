/** `GeneralUtil.print` for a value that is neither a DataFrame nor a function: the
    value's text, optionally wrapped in an ANSI colour code, printed alone or as a
    three-line `#` header. The lines are returned instead of printed. */
module ConsolePrint {
  import opened Wrappers

  /** The ANSI codes of `COLORS`; `endc` resets the terminal after a coloured text. */
  const Colors: map<string, string> := map[
    "purple" := "\U{1B}[95m",
    "blue" := "\U{1B}[94m",
    "cyan" := "\U{1B}[96m",
    "green" := "\U{1B}[92m",
    "yellow" := "\U{1B}[93m",
    "red" := "\U{1B}[91m",
    "bold" := "\U{1B}[1m",
    "underline" := "\U{1B}[4m",
    "endc" := "\U{1B}[0m"
  ]

  /** The message of the exception raised for a negative header (spelt as in the source). */
  const NegativeHeaderMessage: string := "header cannot be negatve."

  datatype PrintError =
    | KeyError(key: string)       // the colour is not a key of `COLORS`
    | Exception(message: string)  // the header width is negative

  /** `if color:` is false for `None` and for the empty string. */
  predicate HasColor(color: Option<string>)
  {
    color.Some? && color.value != ""
  }

  /** The text to print: `x`, or `COLORS[color] + x + COLORS['endc']` when a colour is given. */
  function Colored(x: string, color: Option<string>): (r: Result<string, PrintError>)
    ensures !HasColor(color) ==> r == Ok(x)
    ensures HasColor(color) ==> (r.Ok? <==> color.value in Colors)
    ensures HasColor(color) && r.Ok? ==> r.value == Colors[color.value] + x + Colors["endc"]
    ensures r.Err? ==> r.error == KeyError(color.value)
  {
    if !HasColor(color) then Ok(x)
    else if color.value !in Colors then Err(KeyError(color.value))
    else Ok(Colors[color.value] + x + Colors["endc"])
  }

  /** `'-' * n`. */
  function Dashes(n: nat): (d: string)
    ensures |d| == n
    ensures forall k :: 0 <= k < n ==> d[k] == '-'
  {
    seq(n, _ => '-')
  }

  /** The lines `print` emits, or the error it raises before emitting anything. The
      colour is looked up before the header is checked. */
  function PrintLines(x: string, color: Option<string>, header: int): (r: Result<seq<string>, PrintError>)
    ensures r.Err? <==> Colored(x, color).Err? || header < 0
    ensures Colored(x, color).Err? ==> r == Err(Colored(x, color).error)
    ensures Colored(x, color).Ok? && header < 0 ==> r == Err(Exception(NegativeHeaderMessage))
    ensures Colored(x, color).Ok? && header == 0 ==> r == Ok([Colored(x, color).value])
    ensures Colored(x, color).Ok? && header > 0 ==>
      && r.Ok? && |r.value| == 3
      && r.value[0] == r.value[2]
      && |r.value[0]| == header + 2 && r.value[0][..2] == "# "
      && (forall k :: 2 <= k < |r.value[0]| ==> r.value[0][k] == '-')
      && r.value[1] == "# " + Colored(x, color).value
  {
    match Colored(x, color)
    case Err(e) => Err(e)
    case Ok(text) =>
      if header == 0 then Ok([text])
      else if header < 0 then Err(Exception(NegativeHeaderMessage))
      else
        var rule := "# " + Dashes(header);
        Ok([rule, "# " + text, rule])
  }

  /** The text inside printed lines: the single line, or the middle header line less its `# `. */
  function Unframed(lines: seq<string>): string
    requires |lines| == 1 || (|lines| == 3 && |lines[1]| >= 2)
  {
    if |lines| == 1 then lines[0] else lines[1][2..]
  }

  /** `text` less its leading colour `code` and trailing reset code. */
  function Uncolored(text: string, code: string): string
    requires |text| >= |code| + |Colors["endc"]|
  {
    text[|code|..|text| - |Colors["endc"]|]
  }

  /** The printed lines always give back the value: framing and colouring lose nothing. */
  lemma PrintRecoversText(x: string, color: Option<string>, header: int)
    requires PrintLines(x, color, header).Ok?
    ensures var lines := PrintLines(x, color, header).value;
      && (|lines| == 1 || (|lines| == 3 && |lines[1]| >= 2))
      && (!HasColor(color) ==> Unframed(lines) == x)
      && (HasColor(color) ==>
            |Unframed(lines)| >= |Colors[color.value]| + |Colors["endc"]|
            && Uncolored(Unframed(lines), Colors[color.value]) == x)
  {
    var lines := PrintLines(x, color, header).value;
    var text := Colored(x, color).value;
    assert Unframed(lines) == text by {
      if header > 0 { assert lines[1] == "# " + text; }
    }
    if HasColor(color) {
      var code := Colors[color.value];
      assert text == code + x + Colors["endc"];
      assert text[|code|..|text| - |Colors["endc"]|] == x;
    }
  }
}
