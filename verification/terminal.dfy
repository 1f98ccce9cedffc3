/** The ANSI colour codes the lister writes, and what a terminal shows of a
    string that contains them. */
module Terminal {

  const Esc: char := '\U{1B}'

  /** Select Graphic Rendition codes: blue, green-on-yellow highlight, reset. */
  const Blue: string := [Esc] + "[34m"
  const Highlight: string := [Esc] + "[33;32m"
  const Reset: string := [Esc] + "[0m"

  /** What remains of `s` once the escape introducer and the parameters of the
      code it starts are consumed: everything after the first 'm'. */
  function AfterCode(s: string): (r: string)
    ensures |r| < |s| || s == r == []
  {
    if s == [] then []
    else if s[0] == 'm' then s[1..]
    else AfterCode(s[1..])
  }

  /** The characters a terminal displays for `s`: every escape sequence
      `ESC ... m` is dropped, every other character kept in order. */
  function Visible(s: string): (v: string)
    ensures |v| <= |s|
    decreases |s|
  {
    if s == [] then []
    else if s[0] == Esc then Visible(AfterCode(s[1..]))
    else [s[0]] + Visible(s[1..])
  }

  predicate Plain(s: string)
  {
    Esc !in s
  }

  /** Plain text passes through unchanged. */
  lemma {:induction false} VisiblePlainPrefix(a: string, b: string)
    requires Plain(a)
    ensures Visible(a + b) == a + Visible(b)
  {
    if a != [] {
      assert a[0] != Esc && Plain(a[1..]);
      assert (a + b)[0] == a[0];
      assert (a + b)[1..] == a[1..] + b;
      VisiblePlainPrefix(a[1..], b);
      assert a == [a[0]] + a[1..];
    } else {
      assert a + b == b;
    }
  }

  lemma {:induction false} VisiblePlain(a: string)
    requires Plain(a)
    ensures Visible(a) == a
  {
    VisiblePlainPrefix(a, []);
    assert a + [] == a;
  }

  /** The parameters of a code up to its final 'm' are consumed whole. */
  lemma {:induction false} AfterCodeParams(params: string, b: string)
    requires 'm' !in params
    ensures AfterCode(params + "m" + b) == b
  {
    if params == [] {
      assert ("m" + b)[1..] == b;
    } else {
      assert (params + "m" + b)[1..] == params[1..] + "m" + b;
      AfterCodeParams(params[1..], b);
    }
  }

  /** Each of the three codes is invisible in front of any text. */
  lemma VisibleAfterCodes(b: string)
    ensures Visible(Blue + b) == Visible(b)
    ensures Visible(Highlight + b) == Visible(b)
    ensures Visible(Reset + b) == Visible(b)
  {
    AfterCodeParams("[34", b);
    assert (Blue + b)[1..] == "[34" + "m" + b;
    AfterCodeParams("[33;32", b);
    assert (Highlight + b)[1..] == "[33;32" + "m" + b;
    AfterCodeParams("[0", b);
    assert (Reset + b)[1..] == "[0" + "m" + b;
  }

  /** Wrapping plain text in a code and the reset shows exactly that text. */
  lemma VisibleWrapped(code: string, a: string)
    requires code == Blue || code == Highlight
    requires Plain(a)
    ensures Visible(code + a + Reset) == a
  {
    VisibleAfterCodes(a + Reset);
    VisiblePlainPrefix(a, Reset);
    VisibleAfterCodes([]);
    assert Reset + [] == Reset;
    assert code + a + Reset == code + (a + Reset);
  }
}
