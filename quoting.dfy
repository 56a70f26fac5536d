/**
 * The identifier quoting helper `e(name)` of src/PgQueue.ts: it builds an SQL
 * delimited identifier by wrapping the name in double quotes and doubling every
 * double quote inside it (section 4.1.1, "Identifiers and Key Words", of the
 * PostgreSQL documentation; the <delimited identifier> of ISO/IEC 9075-2, 5.2).
 *
 * Partners proved here: the inverse Unquote (strip the delimiters, collapse each
 * pair), and a scanner for delimited identifiers as the SQL lexer reads them,
 * which shows the quoted name is read back whole whatever text follows it.
 */
module Quoting {
  import opened Wrappers

  const Dq: char := '"'

  /** `name.replace(/"/g, '""')`: every double quote is doubled, other characters are kept. */
  function Escape(name: string): string
  {
    if name == [] then []
    else (if name[0] == Dq then [Dq, Dq] else [name[0]]) + Escape(name[1..])
  }

  /** `e(name)`: the delimited identifier for `name`. */
  function QuoteIdentifier(name: string): (r: string)
    ensures |r| >= 2 && r[0] == Dq && r[|r| - 1] == Dq
    ensures r[1..|r| - 1] == Escape(name)
  {
    [Dq] + Escape(name) + [Dq]
  }

  /** Number of double quotes in `s`. */
  function QuoteCount(s: string): nat
  {
    multiset(s)[Dq]
  }

  /** The escaped text is as long as the name plus one character per embedded quote. */
  lemma {:induction false} EscapeLength(name: string)
    ensures |Escape(name)| == |name| + QuoteCount(name)
  {
    if name != [] {
      assert name == [name[0]] + name[1..];
      assert multiset(name) == multiset{name[0]} + multiset(name[1..]);
      EscapeLength(name[1..]);
    }
  }

  /** `e(name)` has length |name| + 2 + (number of quotes in name). */
  lemma QuoteIdentifierLength(name: string)
    ensures |QuoteIdentifier(name)| == |name| + 2 + QuoteCount(name)
  {
    EscapeLength(name);
  }

  /** Escaping works character by character: it distributes over concatenation. */
  lemma {:induction false} EscapeAppend(a: string, b: string)
    ensures Escape(a + b) == Escape(a) + Escape(b)
  {
    if a != [] {
      assert (a + b)[0] == a[0];
      assert (a + b)[1..] == a[1..] + b;
      EscapeAppend(a[1..], b);
      var head := if a[0] == Dq then [Dq, Dq] else [a[0]];
      calc {
        Escape(a + b);
        head + Escape(a[1..] + b);
        head + (Escape(a[1..]) + Escape(b));
        (head + Escape(a[1..])) + Escape(b);
      }
    } else {
      assert a + b == b;
    }
  }

  /** A name without quotes is left as it is: `e(name)` only wraps it. */
  lemma {:induction false} EscapeNoQuote(name: string)
    requires QuoteCount(name) == 0
    ensures Escape(name) == name
  {
    if name != [] {
      assert name == [name[0]] + name[1..];
      assert multiset(name) == multiset{name[0]} + multiset(name[1..]);
      EscapeNoQuote(name[1..]);
    }
  }

  /** Collapse each `""` of a delimited identifier's body to `"`; a lone quote is malformed. */
  function Unescape(body: string): Option<string>
    decreases |body|
  {
    if body == [] then Some([])
    else if body[0] != Dq then
      match Unescape(body[1..])
      case Some(rest) => Some([body[0]] + rest)
      case None => None
    else if |body| >= 2 && body[1] == Dq then
      match Unescape(body[2..])
      case Some(rest) => Some([Dq] + rest)
      case None => None
    else None
  }

  /** Strip the outer quotes and collapse the doubled ones. */
  function Unquote(quoted: string): Option<string>
  {
    if |quoted| >= 2 && quoted[0] == Dq && quoted[|quoted| - 1] == Dq
    then Unescape(quoted[1..|quoted| - 1])
    else None
  }

  lemma {:induction false} UnescapeEscape(name: string)
    ensures Unescape(Escape(name)) == Some(name)
  {
    if name != [] {
      UnescapeEscape(name[1..]);
      var tail := Escape(name[1..]);
      if name[0] == Dq {
        assert Escape(name) == [Dq, Dq] + tail;
        assert Escape(name)[2..] == tail;
      } else {
        assert Escape(name) == [name[0]] + tail;
        assert Escape(name)[1..] == tail;
      }
      assert [name[0]] + name[1..] == name;
    }
  }

  lemma {:induction false} EscapeUnescape(body: string, name: string)
    requires Unescape(body) == Some(name)
    ensures Escape(name) == body
    decreases |body|
  {
    if body != [] {
      if body[0] != Dq {
        var rest := Unescape(body[1..]).value;
        EscapeUnescape(body[1..], rest);
        assert name == [body[0]] + rest;
        assert name[1..] == rest;
        assert [body[0]] + body[1..] == body;
      } else {
        var rest := Unescape(body[2..]).value;
        EscapeUnescape(body[2..], rest);
        assert name == [Dq] + rest;
        assert name[1..] == rest;
        assert [Dq, Dq] + body[2..] == body;
      }
    }
  }

  /** Round trip: stripping the quotes of `e(name)` and collapsing each pair gives `name` back. */
  lemma UnquoteQuote(name: string)
    ensures Unquote(QuoteIdentifier(name)) == Some(name)
  {
    UnescapeEscape(name);
  }

  /** Whatever Unquote accepts is the image of `e` of what it returns. */
  lemma UnquoteSound(quoted: string, name: string)
    requires Unquote(quoted) == Some(name)
    ensures quoted == QuoteIdentifier(name)
  {
    var body := quoted[1..|quoted| - 1];
    assert Unescape(body) == Some(name);
    EscapeUnescape(body, name);
    assert quoted == [Dq] + body + [Dq];
  }

  /** Unquote accepts exactly the images of `e`, and inverts it: both directions. */
  lemma UnquoteIff(quoted: string, name: string)
    ensures Unquote(quoted) == Some(name) <==> quoted == QuoteIdentifier(name)
  {
    if Unquote(quoted) == Some(name) {
      UnquoteSound(quoted, name);
    }
    if quoted == QuoteIdentifier(name) {
      UnquoteQuote(name);
    }
  }

  /** `e` is injective: distinct names give distinct identifiers. */
  lemma QuoteIdentifierInjective(a: string, b: string)
    requires QuoteIdentifier(a) == QuoteIdentifier(b)
    ensures a == b
  {
    UnquoteQuote(a);
    UnquoteQuote(b);
  }

  /**
   * What an SQL lexer does after the opening quote of a delimited identifier:
   * a doubled quote stands for one quote, a single quote ends the identifier.
   * Yields the identifier and the text after it; None when the quote is never closed.
   */
  function ScanDelimited(text: string): Option<(string, string)>
    decreases |text|
  {
    if text == [] then None
    else if text[0] == Dq then
      if |text| >= 2 && text[1] == Dq then
        match ScanDelimited(text[2..])
        case Some((ident, rest)) => Some(([Dq] + ident, rest))
        case None => None
      else Some(([], text[1..]))
    else
      match ScanDelimited(text[1..])
      case Some((ident, rest)) => Some(([text[0]] + ident, rest))
      case None => None
  }

  /** Read a delimited identifier at the start of `text`. */
  function LexDelimited(text: string): Option<(string, string)>
  {
    if text != [] && text[0] == Dq then ScanDelimited(text[1..]) else None
  }

  /** The text following an identifier does not glue onto it (a quote right after would). */
  predicate Separated(rest: string)
  {
    rest == [] || rest[0] != Dq
  }

  lemma {:induction false} ScanEscaped(name: string, rest: string)
    requires Separated(rest)
    ensures ScanDelimited(Escape(name) + [Dq] + rest) == Some((name, rest))
  {
    var text := Escape(name) + [Dq] + rest;
    if name == [] {
      assert text == [Dq] + rest;
      assert text[1..] == rest;
    } else {
      ScanEscaped(name[1..], rest);
      var tail := Escape(name[1..]) + [Dq] + rest;
      assert ScanDelimited(tail) == Some((name[1..], rest));
      if name[0] == Dq {
        assert text == [Dq, Dq] + tail;
        assert text[0] == Dq && text[1] == Dq && text[2..] == tail;
        assert ScanDelimited(text) == Some(([Dq] + name[1..], rest));
      } else {
        assert text == [name[0]] + tail;
        assert text[0] == name[0] && text[1..] == tail;
        assert ScanDelimited(text) == Some(([name[0]] + name[1..], rest));
      }
      assert [name[0]] + name[1..] == name;
    }
  }

  lemma {:induction false} ScanSound(text: string, name: string, rest: string)
    requires ScanDelimited(text) == Some((name, rest))
    ensures text == Escape(name) + [Dq] + rest && Separated(rest)
    decreases |text|
  {
    if text[0] == Dq {
      if |text| >= 2 && text[1] == Dq {
        var (ident, r) := ScanDelimited(text[2..]).value;
        ScanSound(text[2..], ident, r);
        assert name == [Dq] + ident && name[1..] == ident;
        assert text == [Dq, Dq] + text[2..];
      } else {
        assert name == [];
        assert text == [Dq] + text[1..];
      }
    } else {
      var (ident, r) := ScanDelimited(text[1..]).value;
      ScanSound(text[1..], ident, r);
      assert name == [text[0]] + ident && name[1..] == ident;
      assert text == [text[0]] + text[1..];
    }
  }

  /**
   * `e(name)` is self-delimiting: followed by any text that does not start with a
   * quote, the lexer reads back exactly `name` and leaves that text untouched; and
   * whatever the lexer reads as an identifier came from `e` in exactly this way.
   */
  lemma LexQuoteIdentifierIff(text: string, name: string, rest: string)
    ensures LexDelimited(text) == Some((name, rest))
        <==> text == QuoteIdentifier(name) + rest && Separated(rest)
  {
    if LexDelimited(text) == Some((name, rest)) {
      ScanSound(text[1..], name, rest);
      assert text == [Dq] + text[1..];
    }
    if text == QuoteIdentifier(name) + rest && Separated(rest) {
      ScanEscaped(name, rest);
      assert text[1..] == Escape(name) + [Dq] + rest;
    }
  }

  /** The body of `e(name)` has no lone quote: the first quote the lexer meets that is not doubled is the closing one. */
  lemma QuotedBodyHasNoLoneQuote(name: string)
    ensures LexDelimited(QuoteIdentifier(name)) == Some((name, []))
  {
    LexQuoteIdentifierIff(QuoteIdentifier(name), name, []);
  }
}
