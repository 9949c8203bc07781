/**
 * Terminal formatting helpers: ECMA-48 Select Graphic Rendition sequences
 * (section 8.3.117 of ECMA-48) around a text, and tab indentation.
 */
module Formatting {
  import opened Wrappers

  const Esc: char := '\U{1b}'

  /** CSI 1 m: bold. */
  const BoldOn: string := [Esc, '[', '1', 'm']
  /** CSI 32 m: green foreground. */
  const GreenOn: string := [Esc, '[', '3', '2', 'm']
  /** CSI 0 m: reset every attribute. */
  const Reset: string := [Esc, '[', '0', 'm']

  /** `text` between the SGR sequence `on` and the reset sequence. */
  function Wrap(on: string, text: string): (r: string)
    ensures |r| == |on| + |text| + |Reset|
    ensures r[..|on|] == on
    ensures r[|r| - |Reset|..] == Reset
    ensures r[|on|..|r| - |Reset|] == text
  {
    on + text + Reset
  }

  /** The text between `on` and the reset sequence, if `s` has that shape. */
  function Unwrap(on: string, s: string): (r: Option<string>)
    ensures r.Some? ==> |s| == |on| + |r.value| + |Reset|
  {
    if |s| >= |on| + |Reset| && s[..|on|] == on && s[|s| - |Reset|..] == Reset
    then Some(s[|on|..|s| - |Reset|])
    else None
  }

  lemma UnwrapWrap(on: string, text: string)
    ensures Unwrap(on, Wrap(on, text)) == Some(text)
  {
  }

  lemma WrapUnwrap(on: string, s: string)
    requires Unwrap(on, s).Some?
    ensures Wrap(on, Unwrap(on, s).value) == s
  {
    assert s == s[..|on|] + s[|on|..|s| - |Reset|] + s[|s| - |Reset|..];
  }

  /** `bold(text)`: `f"\033[1m{text}\033[0m"`. */
  function Bold(text: string): (r: string)
    ensures |r| == |text| + 8
    ensures r[..4] == BoldOn && r[|r| - 4..] == Reset
    ensures r[4..|r| - 4] == text
  {
    Wrap(BoldOn, text)
  }

  /** `green(text)`: `f"\033[32m{str(text)}\033[0m"`. */
  function Green(text: string): (r: string)
    ensures |r| == |text| + 9
    ensures r[..5] == GreenOn && r[|r| - 4..] == Reset
    ensures r[5..|r| - 4] == text
  {
    Wrap(GreenOn, text)
  }

  /** Stripping the bold prefix and the reset suffix recovers the text. */
  lemma BoldRoundTrip(text: string)
    ensures Unwrap(BoldOn, Bold(text)) == Some(text)
  {
    UnwrapWrap(BoldOn, text);
  }

  /** Stripping the green prefix and the reset suffix recovers the text. */
  lemma GreenRoundTrip(text: string)
    ensures Unwrap(GreenOn, Green(text)) == Some(text)
  {
    UnwrapWrap(GreenOn, text);
  }

  lemma BoldInjective(t1: string, t2: string)
    requires Bold(t1) == Bold(t2)
    ensures t1 == t2
  {
    BoldRoundTrip(t1);
    BoldRoundTrip(t2);
  }

  lemma GreenInjective(t1: string, t2: string)
    requires Green(t1) == Green(t2)
    ensures t1 == t2
  {
    GreenRoundTrip(t1);
    GreenRoundTrip(t2);
  }

  /** A bold text is never a green text: the SGR parameters differ at the third character. */
  lemma BoldIsNotGreen(t1: string, t2: string)
    ensures Bold(t1) != Green(t2)
  {
    assert Bold(t1)[2] == '1' && Green(t2)[2] == '3';
  }

  /** `"\t" * n`: n tab characters, none when n is zero or negative. */
  function Tabs(n: int): (r: string)
    ensures |r| == if n <= 0 then 0 else n
    ensures forall i :: 0 <= i < |r| ==> r[i] == '\t'
  {
    if n <= 0 then [] else Tabs(n - 1) + ['\t']
  }

  /** `indent(text, tabs=1)`: `"\t" * tabs + text`. */
  function Indent(text: string, tabs: int := 1): (r: string)
    ensures tabs >= 0 ==> |r| == tabs + |text|
    ensures tabs >= 0 ==> r[tabs..] == text
    ensures tabs >= 0 ==> forall i :: 0 <= i < tabs ==> r[i] == '\t'
    ensures tabs <= 0 ==> r == text
  {
    Tabs(tabs) + text
  }

  /** The default indentation is a single tab. */
  lemma IndentDefault(text: string)
    ensures Indent(text) == ['\t'] + text
  {
    assert Tabs(1) == ['\t'];
  }

  lemma {:induction false} TabsAdd(a: nat, b: nat)
    ensures Tabs(b) + Tabs(a) == Tabs(a + b)
  {
    if a > 0 {
      TabsAdd(a - 1, b);
      assert Tabs(b) + Tabs(a) == (Tabs(b) + Tabs(a - 1)) + ['\t'];
    } else {
      assert Tabs(b) + [] == Tabs(b);
    }
  }

  /** Indenting twice indents by the sum of the two counts. */
  lemma IndentTwice(text: string, a: nat, b: nat)
    ensures Indent(Indent(text, a), b) == Indent(text, a + b)
  {
    TabsAdd(a, b);
    assert Tabs(b) + (Tabs(a) + text) == (Tabs(b) + Tabs(a)) + text;
  }
}
