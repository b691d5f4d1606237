/**
 Option strings and argument tokens as argparse sees them: how an option
 string is spelled, which attribute name argparse derives from it, and how a
 token is converted with `type = int`.
 */
module ArgText {
  import opened Values

  /**
   An option string: a short option `-c`, or a long option whose text is its
   words joined by dashes (`--skip-auth` is `Long(["skip", "auth"])`).
   */
  datatype OptionString = Short(c: char) | Long(words: seq<string>)

  /** The words joined with a separator character. */
  function Join(ws: seq<string>, sep: char): (r: string)
    ensures |ws| == 1 ==> r == ws[0]
    decreases |ws|
  {
    if |ws| == 0 then "" else if |ws| == 1 then ws[0] else ws[0] + [sep] + Join(ws[1..], sep)
  }

  /** The text of an option string as written on the command line. */
  function OptionText(o: OptionString): string
  {
    match o
    case Short(c) => ['-', c]
    case Long(ws) => "--" + Join(ws, '-')
  }

  predicate DashFree(w: string)
  {
    forall j :: 0 <= j < |w| ==> w[j] != '-'
  }

  /** An option string whose text parses back to it: a non-dash short letter, or non-empty dash-free words. */
  predicate ValidOption(o: OptionString)
  {
    match o
    case Short(c) => c != '-'
    case Long(ws) => |ws| > 0 && forall i :: 0 <= i < |ws| ==> |ws[i]| > 0 && DashFree(ws[i])
  }

  /** The attribute name of an option string: a long option's words joined by underscores, a short option's letter. */
  function OptionName(o: OptionString): string
  {
    match o
    case Short(c) => [c]
    case Long(ws) => Join(ws, '_')
  }

  /** argparse counts an option string as long when its second character is a prefix character. */
  predicate IsLong(o: string)
  {
    |o| > 1 && o[1] == '-'
  }

  /** The index of the first character at or after `i` that is not a dash. */
  function LeadingDashes(s: string, i: nat): (r: nat)
    requires i <= |s|
    ensures i <= r <= |s|
    ensures forall j :: i <= j < r ==> s[j] == '-'
    ensures r < |s| ==> s[r] != '-'
    decreases |s| - i
  {
    if i < |s| && s[i] == '-' then LeadingDashes(s, i + 1) else i
  }

  /** `s[i..]` with every dash replaced by an underscore. */
  function Underscored(s: string, i: nat): (r: string)
    requires i <= |s|
    ensures |r| == |s| - i
    ensures forall j :: 0 <= j < |r| ==> r[j] == (if s[i + j] == '-' then '_' else s[i + j])
    decreases |s| - i
  {
    if i == |s| then [] else [if s[i] == '-' then '_' else s[i]] + Underscored(s, i + 1)
  }

  /**
   The attribute name argparse derives from an option string:
   `option.lstrip('-').replace('-', '_')`.
   */
  function NameOfOption(o: string): (r: string)
    ensures |r| <= |o|
    ensures forall j :: 0 <= j < |r| ==> r[j] != '-'
  {
    Underscored(o, LeadingDashes(o, 0))
  }

  /** Every character of `s` with dashes replaced by underscores. */
  function Swap(s: string): (r: string)
    ensures |r| == |s|
    ensures forall j :: 0 <= j < |s| ==> r[j] == (if s[j] == '-' then '_' else s[j])
  {
    seq(|s|, j requires 0 <= j < |s| => if s[j] == '-' then '_' else s[j])
  }

  lemma {:induction false} SwapJoin(ws: seq<string>)
    requires forall i :: 0 <= i < |ws| ==> DashFree(ws[i])
    ensures Swap(Join(ws, '-')) == Join(ws, '_')
    decreases |ws|
  {
    if |ws| > 1 {
      SwapJoin(ws[1..]);
      var tail := Join(ws[1..], '-');
      assert Join(ws, '-') == ws[0] + "-" + tail;
      assert Join(ws, '_') == ws[0] + "_" + Swap(tail);
      assert Swap(ws[0] + "-" + tail) == ws[0] + "_" + Swap(tail);
    }
  }

  lemma {:induction false} JoinHead(ws: seq<string>, sep: char)
    requires |ws| > 0 && |ws[0]| > 0
    ensures |Join(ws, sep)| > 0 && Join(ws, sep)[0] == ws[0][0]
  {
  }

  /** A valid option string is long, by argparse's test on its text, exactly when it is a `Long`. */
  lemma LongText(o: OptionString)
    requires ValidOption(o)
    ensures IsLong(OptionText(o)) <==> o.Long?
  {
  }

  /**
   The name argparse derives from the text of a valid option string,
   `lstrip('-').replace('-', '_')`, is the option's words joined by
   underscores (its letter, for a short option).
   */
  lemma NameOfOptionText(o: OptionString)
    requires ValidOption(o)
    ensures NameOfOption(OptionText(o)) == OptionName(o)
  {
    var t := OptionText(o);
    match o
    case Short(c) =>
      assert LeadingDashes(t, 0) == 1;
      assert Underscored(t, 1) == [c];
    case Long(ws) =>
      JoinHead(ws, '-');
      assert t[2] == ws[0][0];
      var k := LeadingDashes(t, 0);
      assert k == 2;
      SwapJoin(ws);
      assert Underscored(t, 2) == Swap(Join(ws, '-'));
  }

  predicate IsDigit(c: char)
  {
    '0' <= c <= '9'
  }

  predicate AllDigits(s: string)
  {
    forall i :: 0 <= i < |s| ==> IsDigit(s[i])
  }

  function DigitChar(d: nat): (c: char)
    requires d < 10
    ensures IsDigit(c)
  {
    ('0' as int + d) as char
  }

  /** The number a non-empty run of decimal digits denotes. */
  function DigitsValue(s: string): nat
    requires AllDigits(s)
    decreases |s|
  {
    if |s| == 0 then 0 else DigitsValue(s[..|s| - 1]) * 10 + (s[|s| - 1] as int - '0' as int)
  }

  /** The token without its optional leading sign. */
  function Unsigned(tok: string): string
  {
    if |tok| > 0 && (tok[0] == '-' || tok[0] == '+') then tok[1..] else tok
  }

  /**
   `int(tok)` as `type = int` applies it: an optional sign followed by at
   least one decimal digit; anything else is a conversion failure.
   */
  function ParseInt(tok: string): (r: Option<int>)
    ensures r.Some? <==> |Unsigned(tok)| > 0 && AllDigits(Unsigned(tok))
    ensures r.Some? && (|tok| == 0 || tok[0] != '-') ==> r.value >= 0
    ensures r.Some? && |tok| > 0 && tok[0] == '-' ==> r.value <= 0
  {
    var digits := Unsigned(tok);
    if |digits| == 0 || !AllDigits(digits) then None
    else if tok[0] == '-' then Some(-(DigitsValue(digits) as int))
    else Some(DigitsValue(digits))
  }

  /** The decimal rendering of a natural number, without leading zeros. */
  function NatText(n: nat): (r: string)
    ensures |r| > 0 && AllDigits(r)
    ensures |r| > 1 ==> r[0] != '0'
    decreases n
  {
    if n < 10 then [DigitChar(n)] else NatText(n / 10) + [DigitChar(n % 10)]
  }

  /** `str(n)` for an integer. */
  function IntText(n: int): string
  {
    if n < 0 then "-" + NatText(-n) else NatText(n)
  }

  lemma {:induction false} NatTextValue(n: nat)
    ensures DigitsValue(NatText(n)) == n
    decreases n
  {
    if n >= 10 {
      var s := NatText(n);
      assert s[..|s| - 1] == NatText(n / 10);
      NatTextValue(n / 10);
    }
  }

  /** Every integer survives a round trip through its decimal rendering and `int(...)`. */
  lemma ParseIntText(n: int)
    ensures ParseInt(IntText(n)) == Some(n)
  {
    if n < 0 {
      assert Unsigned(IntText(n)) == NatText(-n);
      NatTextValue(-n);
    } else {
      NatTextValue(n);
    }
  }
}
