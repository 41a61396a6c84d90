/**
 * Text primitives shared by both record codecs and the file layer:
 * tokenising as repeated std::getline calls do, joining tokens back,
 * the text a stream holds after writing newline-terminated lines, and
 * the decimal number syntax used for prices and user ids.
 */
module Text {
  import opened Wrappers

  /** Position of the first `d` in `s`, or `|s|` when `s` holds none. */
  function IndexOf(s: string, d: char): (i: nat)
    ensures i <= |s|
    ensures i < |s| ==> s[i] == d
  {
    if s == [] then 0 else if s[0] == d then 0 else 1 + IndexOf(s[1..], d)
  }

  /** No `d` comes before the position `IndexOf` reports. */
  lemma {:induction false} IndexOfFirst(s: string, d: char)
    ensures d !in s[..IndexOf(s, d)]
  {
    if s != [] && s[0] != d {
      IndexOfFirst(s[1..], d);
      assert s[..IndexOf(s, d)] == [s[0]] + s[1..][..IndexOf(s[1..], d)];
    }
  }

  /**
   * The tokens that successive `std::getline(stream, token, d)` calls
   * deliver for a stream holding `s`: every `d` ends a token, an empty
   * token between two delimiters is kept, and a final empty token (after a
   * trailing `d`) is not delivered, because that call extracts nothing.
   */
  function Split(s: string, d: char): (tokens: seq<string>)
    ensures |tokens| == 0 <==> s == []
    decreases |s|
  {
    if s == [] then []
    else
      var i := IndexOf(s, d);
      if i == |s| then [s] else [s[..i]] + Split(s[i + 1..], d)
  }

  /** The tokens written one after another with `d` between them. */
  function Join(tokens: seq<string>, d: char): string
  {
    if |tokens| == 0 then []
    else if |tokens| == 1 then tokens[0]
    else tokens[0] + [d] + Join(tokens[1..], d)
  }

  /** The text an output stream holds after `out << line << '\n'` for every line in order. */
  function Render(lines: seq<string>): string
  {
    if lines == [] then [] else lines[0] + "\n" + Render(lines[1..])
  }

  lemma JoinFive(a: string, b: string, c: string, e: string, f: string, d: char)
    ensures Join([a, b, c, e, f], d) == a + [d] + b + [d] + c + [d] + e + [d] + f
  {
    assert [e, f][1..] == [f];
    assert Join([e, f], d) == e + [d] + f;
    assert [c, e, f][1..] == [e, f];
    assert Join([c, e, f], d) == c + [d] + (e + [d] + f);
    assert [b, c, e, f][1..] == [c, e, f];
    assert Join([b, c, e, f], d) == b + [d] + (c + [d] + (e + [d] + f));
    assert [a, b, c, e, f][1..] == [b, c, e, f];
  }

  /** Rendering distributes over concatenation, so a loop may write the lines one at a time. */
  lemma {:induction false} RenderAppend(a: seq<string>, b: seq<string>)
    ensures Render(a + b) == Render(a) + Render(b)
  {
    if a == [] {
      assert a + b == b;
    } else {
      assert (a + b)[0] == a[0];
      assert (a + b)[1..] == a[1..] + b;
      RenderAppend(a[1..], b);
      calc {
        Render(a + b);
        a[0] + "\n" + Render(a[1..] + b);
        a[0] + "\n" + (Render(a[1..]) + Render(b));
        (a[0] + "\n" + Render(a[1..])) + Render(b);
      }
    }
  }

  lemma SplitSingle(a: string, d: char)
    requires a != [] && d !in a
    ensures Split(a, d) == [a]
  {
  }

  lemma SplitCons(a: string, d: char, b: string)
    requires d !in a
    ensures Split(a + [d] + b, d) == [a] + Split(b, d)
  {
    var s := a + [d] + b;
    var i := IndexOf(s, d);
    IndexOfFirst(s, d);
    assert s[|a|] == d;
    assert i == |a|;
    assert s[..i] == a;
    assert s[i + 1..] == b;
  }

  /** Splitting the joined tokens gives the tokens back, when none holds `d` and the last is not empty. */
  lemma {:induction false} SplitJoin(tokens: seq<string>, d: char)
    requires forall k :: 0 <= k < |tokens| ==> d !in tokens[k]
    requires |tokens| > 0 ==> tokens[|tokens| - 1] != []
    ensures Split(Join(tokens, d), d) == tokens
  {
    if |tokens| == 1 {
      SplitSingle(tokens[0], d);
    } else if |tokens| > 1 {
      SplitJoin(tokens[1..], d);
      SplitCons(tokens[0], d, Join(tokens[1..], d));
      assert [tokens[0]] + tokens[1..] == tokens;
    }
  }

  /** Reading back newline-terminated lines, none of which holds a newline, gives exactly those lines. */
  lemma {:induction false} SplitRender(lines: seq<string>)
    requires forall k :: 0 <= k < |lines| ==> '\n' !in lines[k]
    ensures Split(Render(lines), '\n') == lines
  {
    if lines != [] {
      SplitRender(lines[1..]);
      assert lines[0] + "\n" + Render(lines[1..]) == lines[0] + ['\n'] + Render(lines[1..]);
      SplitCons(lines[0], '\n', Render(lines[1..]));
      assert [lines[0]] + lines[1..] == lines;
    }
  }

  /** A text holding `d` splits into the text before its first `d` and the tokens after it. */
  lemma SplitAt(s: string, d: char)
    requires IndexOf(s, d) < |s|
    ensures var i := IndexOf(s, d);
      && s == s[..i] + [d] + s[i + 1..]
      && Split(s, d) == [s[..i]] + Split(s[i + 1..], d)
  {
  }

  lemma JoinCons(h: string, t: seq<string>, d: char)
    requires t != []
    ensures Join([h] + t, d) == h + [d] + Join(t, d)
  {
    assert ([h] + t)[1..] == t;
  }

  /** The other direction: joining the tokens restores the text, less one trailing delimiter. */
  lemma {:induction false} JoinSplit(s: string, d: char)
    ensures Join(Split(s, d), d) == if s != [] && s[|s| - 1] == d then s[..|s| - 1] else s
    decreases |s|
  {
    if s != [] {
      var i := IndexOf(s, d);
      if i == |s| {
        IndexOfFirst(s, d);
        assert s[|s| - 1] != d;
      } else {
        SplitAt(s, d);
        var head, rest := s[..i], s[i + 1..];
        JoinSplit(rest, d);
        if rest == [] {
          assert s[..|s| - 1] == head;
        } else {
          JoinCons(head, Split(rest, d), d);
          assert s[|s| - 1] == rest[|rest| - 1];
          if s[|s| - 1] == d {
            assert s[..|s| - 1] == head + [d] + rest[..|rest| - 1];
          }
        }
      }
    }
  }

  /** Appending `d` and more text to a text that does not end in `d` appends the new tokens. */
  lemma {:induction false} SplitAppend(a: string, d: char, b: string)
    requires a != [] && a[|a| - 1] != d
    ensures Split(a + [d] + b, d) == Split(a, d) + Split(b, d)
    decreases |a|
  {
    var i := IndexOf(a, d);
    IndexOfFirst(a, d);
    if i == |a| {
      SplitCons(a, d, b);
      SplitSingle(a, d);
    } else {
      var head, a' := a[..i], a[i + 1..];
      assert a == head + [d] + a';
      assert a' != [] && a'[|a'| - 1] == a[|a| - 1];
      SplitAppend(a', d, b);
      SplitAppendStep(head, d, a', b);
    }
  }

  /** The step of `SplitAppend`: the first token comes off both sides. */
  lemma SplitAppendStep(head: string, d: char, a': string, b: string)
    requires d !in head
    requires Split(a' + [d] + b, d) == Split(a', d) + Split(b, d)
    ensures Split(head + [d] + a' + [d] + b, d) == Split(head + [d] + a', d) + Split(b, d)
  {
    TextAssoc(head, d, a', b);
    SplitCons(head, d, a' + [d] + b);
    SplitCons(head, d, a');
    TokensAssoc(head, Split(a', d), Split(b, d));
  }

  lemma TextAssoc(h: string, d: char, a: string, b: string)
    ensures h + [d] + a + [d] + b == h + [d] + (a + [d] + b)
  {
  }

  lemma TokensAssoc(h: string, p: seq<string>, q: seq<string>)
    ensures [h] + (p + q) == ([h] + p) + q
  {
  }

  /** No field a codec copies verbatim holds the token or the line delimiter. */
  predicate DelimiterFree(s: string) { ',' !in s && '\n' !in s }

  predicate IsDigit(c: char) { '0' as int <= c as int <= '9' as int }

  /** A non-empty run of decimal digits. */
  predicate IsDigits(s: string) { |s| > 0 && forall i :: 0 <= i < |s| ==> IsDigit(s[i]) }

  function DigitsValue(s: string): nat
    requires forall i :: 0 <= i < |s| ==> IsDigit(s[i])
  {
    if s == [] then 0
    else
      assert IsDigit(s[|s| - 1]);
      10 * DigitsValue(s[..|s| - 1]) + (s[|s| - 1] as int - '0' as int)
  }

  /** A decimal number: defined exactly on non-empty digit strings. */
  function ParseNat(s: string): (r: Option<nat>)
    ensures r.Some? <==> IsDigits(s)
  {
    if IsDigits(s) then Some(DigitsValue(s)) else None
  }

  function Pow10(k: nat): (p: nat)
    ensures p >= 1
  {
    if k == 0 then 1 else 10 * Pow10(k - 1)
  }

  function DigitChar(n: nat): (c: char)
    requires n < 10
    ensures IsDigit(c) && c as int - '0' as int == n
  {
    ('0' as int + n) as char
  }

  /** The decimal form of `n`, without leading zeros, as `std::to_string` and `operator<<` print it. */
  function NatToString(n: nat): (s: string)
    ensures IsDigits(s)
    ensures n < Pow10(|s|)
    ensures |s| > 1 ==> Pow10(|s| - 1) <= n
    ensures s[0] == '0' ==> n == 0
  {
    if n < 10 then [DigitChar(n)] else NatToString(n / 10) + [DigitChar(n % 10)]
  }

  /** std::to_string of a signed integer. */
  function IntToString(i: int): (s: string)
    ensures |s| > 0
  {
    if i < 0 then "-" + NatToString(-i) else NatToString(i)
  }

  /** Printing and then parsing a number gives the number back. */
  lemma {:induction false} ParseNatToString(n: nat)
    ensures ParseNat(NatToString(n)) == Some(n)
  {
    var s := NatToString(n);
    if n < 10 {
      assert s[..|s| - 1] == [];
      assert DigitsValue(s) == n;
    } else {
      ParseNatToString(n / 10);
      assert s[..|s| - 1] == NatToString(n / 10);
      assert DigitsValue(s) == 10 * (n / 10) + n % 10;
    }
  }

  lemma {:induction false} Pow10Monotone(i: nat, j: nat)
    requires i <= j
    ensures Pow10(i) <= Pow10(j)
    decreases j
  {
    if i < j {
      Pow10Monotone(i, j - 1);
    }
  }

  /**
   * A number below one million has at most six digits, so a stream with the
   * default precision of six significant digits prints it exactly as `NatToString` does.
   */
  lemma SixDigitsSuffice(n: nat)
    requires n < 1000000
    ensures |NatToString(n)| <= 6
  {
    var s := NatToString(n);
    if |s| > 6 {
      Pow10Monotone(6, |s| - 1);
    }
  }

  lemma NoCommaInDigits(s: string)
    requires IsDigits(s)
    ensures ',' !in s && '\n' !in s
  {
    assert forall i :: 0 <= i < |s| ==> s[i] != ',' && s[i] != '\n';
  }
}
