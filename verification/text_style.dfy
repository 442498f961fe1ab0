/**
  `TextStyle` from pcef/core/system.py: a colour name with bold, italic and
  underline flags, written as four space-separated tokens
  "<colour> bold|nbold italic|nitalic underlined|nunderlined".
  The colour is kept as the opaque name string `QColor.name()` yields.
 */
module TextStyles {
  import opened Strings
  import opened Results

  datatype TextStyle = TextStyle(color: string, bold: bool, italic: bool, underlined: bool)

  /** `from_string` asserts that there are exactly four tokens. */
  datatype ParseError = WrongTokenCount(count: nat)

  /** The token for one flag: its name when set, "n" + name otherwise. */
  function FlagToken(on: bool, name: string): (r: string)
  {
    if on then name else "n" + name
  }

  /** The four tokens `__str__` emits, in order. */
  function Tokens(t: TextStyle): seq<string>
  {
    [t.color, FlagToken(t.bold, "bold"), FlagToken(t.italic, "italic"), FlagToken(t.underlined, "underlined")]
  }

  /** `__str__`: the four tokens joined by single spaces. */
  function Format(t: TextStyle): (r: string)
    ensures |r| > |t.color| && r[..|t.color|] == t.color && r[|t.color|] == ' '
  {
    Join(Tokens(t), ' ')
  }

  /** `from_string` as written: the underline flag is read from the second
      token, the one that holds `bold|nbold`. */
  function ParseAsWritten(s: string): (r: Result<TextStyle, ParseError>)
    ensures r.Err? <==> |Split(s, ' ')| != 4
    ensures r.Ok? ==> r.value.color == Split(s, ' ')[0]
    ensures r.Ok? ==> (r.value.bold <==> Split(s, ' ')[1] == "bold")
    ensures r.Ok? ==> (r.value.italic <==> Split(s, ' ')[2] == "italic")
    ensures r.Ok? ==> (r.value.underlined <==> Split(s, ' ')[1] == "underlined")
    ensures r.Ok? ==> !(r.value.bold && r.value.underlined)
  {
    var tokens := Split(s, ' ');
    if |tokens| != 4 then Err(WrongTokenCount(|tokens|))
    else Ok(TextStyle(tokens[0], tokens[1] == "bold", tokens[2] == "italic", tokens[1] == "underlined"))
  }

  /** `from_string` as evidently intended: each flag is read from its own
      token, the underline flag from the fourth. */
  function Parse(s: string): (r: Result<TextStyle, ParseError>)
    ensures r.Err? <==> |Split(s, ' ')| != 4
    ensures r.Ok? ==> r.value.color == Split(s, ' ')[0]
    ensures r.Ok? ==> (r.value.bold <==> Split(s, ' ')[1] == "bold")
    ensures r.Ok? ==> (r.value.italic <==> Split(s, ' ')[2] == "italic")
    ensures r.Ok? ==> (r.value.underlined <==> Split(s, ' ')[3] == "underlined")
  {
    var tokens := Split(s, ' ');
    if |tokens| != 4 then Err(WrongTokenCount(|tokens|))
    else Ok(TextStyle(tokens[0], tokens[1] == "bold", tokens[2] == "italic", tokens[3] == "underlined"))
  }

  lemma NegatedTokens()
    ensures "n" + "bold" == "nbold" && "n" + "italic" == "nitalic" && "n" + "underlined" == "nunderlined"
  {
  }

  /** `__str__` emits exactly four tokens, colour first, each flag token
      naming the flag or its negation. */
  lemma FormatTokens(t: TextStyle)
    requires ' ' !in t.color
    ensures Split(Format(t), ' ') == Tokens(t)
    ensures |Split(Format(t), ' ')| == 4
    ensures Split(Format(t), ' ')[1] in {"bold", "nbold"}
    ensures Split(Format(t), ' ')[2] in {"italic", "nitalic"}
    ensures Split(Format(t), ' ')[3] in {"underlined", "nunderlined"}
  {
    var ts := Tokens(t);
    NegatedTokens();
    assert SeparatorFree(ts, ' ') by {
      assert ' ' !in "bold" && ' ' !in "nbold" && ' ' !in "italic" && ' ' !in "nitalic";
      assert ' ' !in "underlined" && ' ' !in "nunderlined";
    }
    SplitJoin(ts, ' ');
  }

  /** Parsing the written form with the code as written keeps the colour,
      bold and italic, but always yields "not underlined". */
  lemma AsWrittenRoundTrip(t: TextStyle)
    requires ' ' !in t.color
    ensures ParseAsWritten(Format(t)) == Ok(t.(underlined := false))
  {
    FormatTokens(t);
  }

  /** The code as written does not read back any underlined style: the
      round trip fails exactly for the underlined ones. */
  lemma AsWrittenLosesUnderline(t: TextStyle)
    requires ' ' !in t.color
    ensures ParseAsWritten(Format(t)) == Ok(t) <==> !t.underlined
  {
    AsWrittenRoundTrip(t);
  }

  /** The corrected parser reads back every style the formatter writes. */
  lemma RoundTrip(t: TextStyle)
    requires ' ' !in t.color
    ensures Parse(Format(t)) == Ok(t)
  {
    FormatTokens(t);
  }

  /** A lower-case hexadecimal digit, as `QColor.name()` writes them. */
  predicate IsHexDigit(c: char)
  {
    '0' <= c <= '9' || 'a' <= c <= 'f'
  }

  /** The "#rrggbb" shape `QColor.name()` returns: the names that
      `QColor(name).name()` gives back unchanged. */
  predicate IsColorName(c: string)
  {
    |c| == 7 && c[0] == '#' && forall i :: 1 <= i < 7 ==> IsHexDigit(c[i])
  }

  /** A canonical style string: a "#rrggbb" colour followed by three flag
      tokens, each the flag's name or its negation. */
  ghost predicate Canonical(s: string)
  {
    var ts := Split(s, ' ');
    && |ts| == 4
    && IsColorName(ts[0])
    && ts[1] in {"bold", "nbold"}
    && ts[2] in {"italic", "nitalic"}
    && ts[3] in {"underlined", "nunderlined"}
  }

  /** The other direction: a canonical string is reproduced exactly by
      formatting what the corrected parser reads from it. */
  lemma CanonicalRoundTrip(s: string)
    requires Canonical(s)
    ensures Parse(s).Ok? && Format(Parse(s).value) == s
  {
    var ts := Split(s, ' ');
    var t := Parse(s).value;
    NegatedTokens();
    assert Tokens(t) == ts;
    JoinSplit(s, ' ');
  }
}
