/**
 * The console reporter's colours: a `Color` is one SGR (Select Graphic
 * Rendition) setting, a `MixColor` the concatenation of several, and
 * `escape_sequence` renders the parameters as an ANSI "ESC [ ... m" sequence.
 */
module Colors {
  import opened Wrappers
  import opened RubyText

  const Names: seq<string> := ["black", "red", "green", "yellow", "blue", "magenta", "cyan", "white"]

  datatype Color = Color(name: string, foreground: bool, intensity: bool, bold: bool, italic: bool, underline: bool)

  /** `Color.new(name, options)`: a missing foreground option means foreground; the other options default to off. */
  function NewColor(name: string, foreground: Option<bool>, intensity: Option<bool>,
                    bold: Option<bool>, italic: Option<bool>, underline: Option<bool>): (c: Color)
    ensures c.name == name
    ensures c.foreground <==> foreground != Some(false)
    ensures c.intensity <==> intensity == Some(true)
    ensures c.bold <==> bold == Some(true)
    ensures c.italic <==> italic == Some(true)
    ensures c.underline <==> underline == Some(true)
  {
    Color(name, foreground.GetOr(true), intensity.GetOr(false), bold.GetOr(false), italic.GetOr(false), underline.GetOr(false))
  }

  /** A single colour or a mix of painters, in the order they were combined. */
  datatype Painter = Single(color: Color) | Mix(colors: seq<Painter>)

  /** `NAMES.index(name)`. */
  function NameIndex(name: string): (r: Option<nat>)
    ensures r.Some? ==> r.value < |Names| && Names[r.value] == name
    ensures r.None? ==> name !in Names
  {
    if name == "black" then Some(0)
    else if name == "red" then Some(1)
    else if name == "green" then Some(2)
    else if name == "yellow" then Some(3)
    else if name == "blue" then Some(4)
    else if name == "magenta" then Some(5)
    else if name == "cyan" then Some(6)
    else if name == "white" then Some(7)
    else None
  }

  /** 3 for a foreground colour, 4 for a background one, plus 6 for the intense variant. */
  function ColourBase(c: Color): nat {
    (if c.foreground then 3 else 4) + (if c.intensity then 6 else 0)
  }

  /** An SGR parameter: a non-empty decimal numeral, which cannot hold the ';' separator. */
  predicate IsParameter(p: string) { p != [] && AllDigits(p) && ';' !in p }

  predicate AllParameters(ps: seq<string>) { forall k :: 0 <= k < |ps| ==> IsParameter(ps[k]) }

  lemma AppendParameters(a: seq<string>, b: seq<string>)
    requires AllParameters(a) && AllParameters(b)
    ensures AllParameters(a + b)
  {
    forall k | 0 <= k < |a + b| ensures IsParameter((a + b)[k]) {
      if k < |a| {
        assert (a + b)[k] == a[k];
      } else {
        assert (a + b)[k] == b[k - |a|];
      }
    }
  }

  /** The switches that follow the colour: bold, italic, underline. */
  function Switches(c: Color): (r: seq<string>)
    ensures AllParameters(r)
    ensures "1" in r <==> c.bold
    ensures "3" in r <==> c.italic
    ensures "4" in r <==> c.underline
  {
    (if c.bold then ["1"] else []) + (if c.italic then ["3"] else []) + (if c.underline then ["4"] else [])
  }

  /**
   * `Color#sequence`: nothing for "none", "0" for "reset", otherwise the colour
   * base followed by the name's index (interpolated as nothing for an unknown
   * name), then the switches.
   */
  function Sequence(c: Color): (r: seq<string>)
    ensures AllParameters(r)
  {
    var head := ColourParameters(c);
    AppendParameters(head, Switches(c));
    head + Switches(c)
  }

  /** The parameters that select the colour itself. */
  function ColourParameters(c: Color): (r: seq<string>)
    ensures AllParameters(r)
  {
    if c.name == "none" then []
    else if c.name == "reset" then ["0"]
    else
      var index := NameIndex(c.name);
      var code := Decimal(ColourBase(c)) + (if index.Some? then Decimal(index.value) else "");
      assert IsParameter(code);
      [code]
  }

  /**
   * For a known colour name the first parameter is the SGR colour code
   * (30-37, 40-47, 90-97 or 100-107) and the rest are the switches; "reset"
   * leads with "0"; "none" has the switches only.
   */
  lemma SequenceMeaning(c: Color)
    ensures c.name == "none" ==> Sequence(c) == Switches(c)
    ensures c.name == "reset" ==> Sequence(c) == ["0"] + Switches(c)
    ensures c.name in Names ==>
      && Sequence(c)[1..] == Switches(c)
      && DecimalValue(Sequence(c)[0]) == 10 * ColourBase(c) + NameIndex(c.name).value
  {
    if c.name in Names {
      var first := Decimal(ColourBase(c)) + Decimal(NameIndex(c.name).value);
      assert Sequence(c) == [first] + Switches(c);
      AppendDigit(ColourBase(c), NameIndex(c.name).value);
    }
  }

  /** Writing a digit after a numeral multiplies its value by ten and adds the digit. */
  lemma AppendDigit(a: nat, d: nat)
    requires d < 10
    ensures DecimalValue(Decimal(a) + Decimal(d)) == 10 * a + d
  {
    var s := Decimal(a) + Decimal(d);
    DecimalRoundTrip(a);
    assert s[..|s| - 1] == Decimal(a);
  }

  /** `MixColor#sequence`, with `Color#sequence` for a single colour: every parameter is a decimal numeral. */
  function PainterSequence(p: Painter): (r: seq<string>)
    ensures AllParameters(r)
    decreases p, if p.Mix? then |p.colors| + 1 else 0
  {
    match p
    case Single(c) => Sequence(c)
    case Mix(colors) => MixSequence(p, |colors|)
  }

  /** The `inject` over a mix: the parameters of its first `n` parts, left to right. */
  function MixSequence(p: Painter, n: nat): (r: seq<string>)
    requires p.Mix? && n <= |p.colors|
    ensures AllParameters(r)
    decreases p, n
  {
    if n == 0 then []
    else
      var before, last := MixSequence(p, n - 1), PainterSequence(p.colors[n - 1]);
      AppendParameters(before, last);
      before + last
  }

  /** `Color#+` and `MixColor#+`: a mix of the two. */
  function Plus(a: Painter, b: Painter): Painter {
    Mix([a, b])
  }

  /** Combining paints the left operand's parameters, then the right one's. */
  lemma PlusSequence(a: Painter, b: Painter)
    ensures PainterSequence(Plus(a, b)) == PainterSequence(a) + PainterSequence(b)
  {
    var p := Plus(a, b);
    assert MixSequence(p, 1) == PainterSequence(a);
  }

  /** However a chain of colours is grouped, it paints the same parameters. */
  lemma PlusAssociative(a: Painter, b: Painter, c: Painter)
    ensures PainterSequence(Plus(Plus(a, b), c)) == PainterSequence(Plus(a, Plus(b, c)))
  {
    PlusSequence(a, b);
    PlusSequence(Plus(a, b), c);
    PlusSequence(b, c);
    PlusSequence(a, Plus(b, c));
  }

  /** `Array#join(';')`, which gives the empty string for no parameters. */
  function JoinParameters(parameters: seq<string>): string {
    if parameters == [] then "" else Join(parameters, ';')
  }

  /** `escape_sequence`. */
  function EscapeSequence(p: Painter): (r: string)
    ensures |r| >= 3 && r[..2] == "\U{1B}[" && r[|r| - 1] == 'm'
    ensures PainterSequence(p) == [] ==> r == "\U{1B}[m"
  {
    "\U{1B}[" + JoinParameters(PainterSequence(p)) + "m"
  }

  /** Reads the parameters back out of an SGR escape sequence. */
  function ParseEscape(s: string): Option<seq<string>> {
    if |s| >= 3 && s[..2] == "\U{1B}[" && s[|s| - 1] == 'm' then Some(SplitAll(s[2..|s| - 1], ';'))
    else None
  }

  /** A painter with at least one parameter renders to an escape sequence that reads back as its parameters. */
  lemma EscapeRoundTrip(p: Painter)
    requires PainterSequence(p) != []
    ensures ParseEscape(EscapeSequence(p)) == Some(PainterSequence(p))
  {
    var ps := PainterSequence(p);
    SplitJoin(ps, ';');
    var s := EscapeSequence(p);
    assert s[2..|s| - 1] == Join(ps, ';');
  }
}
