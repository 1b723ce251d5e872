/**
  The order text: the selected names joined with ", ", single quotes doubled
  in both values, and the two values placed in the fixed INSERT statement
  for `smoothies.public.orders`.
 */
module Order {
  import opened Wrappers

  const Quote: char := '\''
  const Separator: string := ", "

  // ---------------------------------------------------------------------------
  // The ingredient string

  /** `", ".join(names)`. */
  function JoinNames(names: seq<string>): (s: string)
    ensures |names| == 1 ==> s == names[0]
    ensures names != [] ==> |names[0]| <= |s| && s[..|names[0]|] == names[0]
  {
    if names == [] then ""
    else if |names| == 1 then names[0]
    else names[0] + Separator + JoinNames(names[1..])
  }

  /** `s.split(", ")`: the pieces between separators, always at least one. */
  function SplitNames(s: string): (pieces: seq<string>)
    ensures |pieces| >= 1
  {
    if s == [] then [""]
    else if |s| >= 2 && s[0] == ',' && s[1] == ' ' then [""] + SplitNames(s[2..])
    else
      var rest := SplitNames(s[1..]);
      [[s[0]] + rest[0]] + rest[1..]
  }

  /** `name` holds no ", ", so `split(", ")` finds no separator inside it. */
  predicate NoSeparator(name: string)
  {
    forall k :: 0 <= k < |name| - 1 ==> !(name[k] == ',' && name[k + 1] == ' ')
  }

  lemma {:induction false} SplitWithoutSeparator(name: string)
    requires NoSeparator(name)
    ensures SplitNames(name) == [name]
  {
    if name != [] {
      assert NoSeparator(name[1..]) by {
        forall k | 0 <= k < |name[1..]| - 1
          ensures !(name[1..][k] == ',' && name[1..][k + 1] == ' ')
        {
          assert name[1..][k] == name[k + 1] && name[1..][k + 1] == name[k + 2];
        }
      }
      SplitWithoutSeparator(name[1..]);
      assert [name[0]] + name[1..] == name;
    }
  }

  lemma {:induction false} SplitWithoutSeparatorThen(name: string, rest: string)
    requires NoSeparator(name)
    ensures SplitNames(name + Separator + rest) == [name] + SplitNames(rest)
  {
    var s := name + Separator + rest;
    if name == [] {
      assert s == Separator + rest;
      assert s[0] == ',' && s[1] == ' ' && s[2..] == rest;
    } else {
      Regroup([name[0]], name[1..], Separator, rest);
      assert name == [name[0]] + name[1..];
      assert s[1..] == name[1..] + Separator + rest;
      assert NoSeparator(name[1..]) by {
        forall k | 0 <= k < |name[1..]| - 1
          ensures !(name[1..][k] == ',' && name[1..][k + 1] == ' ')
        {
          assert name[1..][k] == name[k + 1] && name[1..][k + 1] == name[k + 2];
        }
      }
      SplitWithoutSeparatorThen(name[1..], rest);
      assert s[0] == name[0];
      assert s[1] == if |name| >= 2 then name[1] else ',';
      assert !(s[0] == ',' && s[1] == ' ');
      assert [s[0]] + name[1..] == name;
    }
  }

  /**
    When no name contains ", ", splitting the ingredient string on ", " gives
    back the selection, every name in its place.
   */
  lemma {:induction false} SplitJoinNames(names: seq<string>)
    requires names != []
    requires forall k :: 0 <= k < |names| ==> NoSeparator(names[k])
    ensures SplitNames(JoinNames(names)) == names
  {
    if |names| == 1 {
      SplitWithoutSeparator(names[0]);
    } else {
      var tail := names[1..];
      assert JoinNames(names) == names[0] + Separator + JoinNames(tail);
      SplitJoinNames(tail);
      SplitWithoutSeparatorThen(names[0], JoinNames(tail));
      assert [names[0]] + tail == names;
    }
  }

  /** Joining is separator-aware concatenation: the join of a + b puts ", " between the joins. */
  lemma {:induction false} JoinNamesAppend(a: seq<string>, b: seq<string>)
    requires a != [] && b != []
    ensures JoinNames(a + b) == JoinNames(a) + Separator + JoinNames(b)
  {
    if |a| > 1 {
      assert (a + b)[1..] == a[1..] + b;
      JoinNamesAppend(a[1..], b);
    }
  }

  // ---------------------------------------------------------------------------
  // Quote escaping

  function QuoteCount(s: string): nat
  {
    if s == [] then 0 else (if s[0] == Quote then 1 else 0) + QuoteCount(s[1..])
  }

  /** `s.replace("'", "''")`: every quote doubled, everything else kept in order. */
  function Escape(s: string): (e: string)
    ensures |e| == |s| + QuoteCount(s)
  {
    if s == [] then ""
    else (if s[0] == Quote then [Quote, Quote] else [s[0]]) + Escape(s[1..])
  }

  /** Collapses each `''` back to `'`, scanning left to right. */
  function Unescape(e: string): string
  {
    if e == [] then ""
    else if |e| >= 2 && e[0] == Quote && e[1] == Quote then [Quote] + Unescape(e[2..])
    else [e[0]] + Unescape(e[1..])
  }

  /** Escaping works character by character. */
  lemma {:induction false} EscapeAppend(a: string, b: string)
    ensures Escape(a + b) == Escape(a) + Escape(b)
  {
    if a != [] {
      assert (a + b)[0] == a[0] && (a + b)[1..] == a[1..] + b;
      EscapeAppend(a[1..], b);
    } else {
      assert a + b == b;
    }
  }

  /** An apostrophe inside a value is doubled and the text on either side escaped as before. */
  lemma EscapeApostrophe(a: string, b: string)
    ensures Escape(a + [Quote] + b) == Escape(a) + [Quote, Quote] + Escape(b)
  {
    EscapeAppend(a, [Quote] + b);
    assert a + [Quote] + b == a + ([Quote] + b);
    assert Escape([Quote] + b) == [Quote, Quote] + Escape(b) by {
      assert ([Quote] + b)[1..] == b;
    }
  }

  /** A string without quotes is its own escape. */
  lemma {:induction false} EscapeQuoteFree(s: string)
    requires forall k :: 0 <= k < |s| ==> s[k] != Quote
    ensures Escape(s) == s
  {
    if s != [] {
      EscapeQuoteFree(s[1..]);
    }
  }

  /** Collapsing `''` back to `'` recovers the escaped value exactly. */
  lemma {:induction false} UnescapeEscape(s: string)
    ensures Unescape(Escape(s)) == s
  {
    if s != [] {
      UnescapeEscape(s[1..]);
      var e := Escape(s);
      if s[0] == Quote {
        assert e[2..] == Escape(s[1..]);
      } else {
        assert e[1..] == Escape(s[1..]);
      }
    }
  }

  /** Length of the run of quotes that starts `t`. */
  function QuoteRun(t: string): (n: nat)
    ensures n <= |t|
  {
    if t != [] && t[0] == Quote then 1 + QuoteRun(t[1..]) else 0
  }

  /** Every maximal run of quotes in an escaped string has even length. */
  lemma {:induction false} EscapeQuoteRunsEven(s: string, i: nat)
    requires i <= |Escape(s)|
    requires i == 0 || Escape(s)[i - 1] != Quote
    ensures QuoteRun(Escape(s)[i..]) % 2 == 0
  {
    var e := Escape(s);
    if s != [] {
      var tail := Escape(s[1..]);
      if s[0] == Quote {
        assert e == [Quote, Quote] + tail;
        if i == 0 {
          EscapeQuoteRunsEven(s[1..], 0);
          assert e[0..] == e;
          assert e[1..] == [Quote] + tail;
          assert tail[0..] == tail;
        } else {
          assert i >= 2;
          assert e[i..] == tail[i - 2..];
          EscapeQuoteRunsEven(s[1..], i - 2);
        }
      } else {
        assert e == [s[0]] + tail;
        if i > 0 {
          assert e[i..] == tail[i - 1..];
          EscapeQuoteRunsEven(s[1..], i - 1);
        }
      }
    }
  }

  // ---------------------------------------------------------------------------
  // Reading a Snowflake string literal back

  const Backslash: char := '\\'

  predicate NoBackslash(s: string)
  {
    forall k :: 0 <= k < |s| ==> s[k] != Backslash
  }

  /** The character Snowflake reads for `\c` inside a single-quoted literal. */
  function BackslashValue(c: char): char
  {
    if c == 'n' then '\n'
    else if c == 't' then '\t'
    else if c == 'r' then '\r'
    else if c == 'b' then '\U{8}'
    else if c == 'f' then '\U{C}'
    else c
  }

  /** `c` in front of the value read from what follows, if that reads at all. */
  function Prepend(c: char, r: Option<(string, string)>): Option<(string, string)>
  {
    match r
    case None => None
    case Some(p) => Some(([c] + p.0, p.1))
  }

  /**
    Reads the body of a Snowflake single-quoted string literal whose opening
    quote has been consumed: `''` stands for one quote, a backslash and the
    character after it stand for one character (so `\'` is a quote and `\\` a
    backslash), and a lone `'` ends the literal. Gives the value and the text
    after the closing quote, or None when the literal never closes.
   */
  function ReadLiteral(t: string): Option<(string, string)>
  {
    if t == [] then None
    else if t[0] == Quote then
      if |t| >= 2 && t[1] == Quote then Prepend(Quote, ReadLiteral(t[2..]))
      else Some(("", t[1..]))
    else if t[0] == Backslash then
      if |t| >= 2 then Prepend(BackslashValue(t[1]), ReadLiteral(t[2..])) else None
    else Prepend(t[0], ReadLiteral(t[1..]))
  }

  lemma Regroup(a: string, b: string, c: string, d: string)
    ensures (a + b) + c + d == a + (b + c + d)
  {
  }

  lemma ReadLiteralPair(c: char, d: char, u: string)
    requires c == Quote || c == Backslash
    requires c == Quote ==> d == Quote
    ensures ReadLiteral([c, d] + u) == Prepend(if c == Quote then Quote else BackslashValue(d), ReadLiteral(u))
  {
    assert ([c, d] + u)[2..] == u;
  }

  lemma ReadLiteralPlain(c: char, u: string)
    requires c != Quote && c != Backslash
    ensures ReadLiteral([c] + u) == Prepend(c, ReadLiteral(u))
  {
    assert ([c] + u)[1..] == u;
  }

  /**
    A backslash-free value escaped by quote doubling, followed by a closing
    quote, reads back as exactly that value, and the literal ends at that quote.
   */
  lemma {:induction false} ReadEscapedLiteral(s: string, rest: string)
    requires NoBackslash(s)
    requires rest == [] || rest[0] != Quote
    ensures ReadLiteral(Escape(s) + [Quote] + rest) == Some((s, rest))
  {
    if s == [] {
      assert Escape(s) + [Quote] + rest == [Quote] + rest;
    } else {
      var head := if s[0] == Quote then [Quote, Quote] else [s[0]];
      var inner := Escape(s[1..]) + [Quote] + rest;
      assert Escape(s) == head + Escape(s[1..]);
      Regroup(head, Escape(s[1..]), [Quote], rest);
      assert s[0] != Backslash;
      assert NoBackslash(s[1..]) by {
        forall k | 0 <= k < |s[1..]| ensures s[1..][k] != Backslash {
          assert s[1..][k] == s[k + 1];
        }
      }
      ReadEscapedLiteral(s[1..], rest);
      if s[0] == Quote {
        ReadLiteralPair(Quote, Quote, inner);
      } else {
        ReadLiteralPlain(s[0], inner);
      }
      assert [s[0]] + s[1..] == s;
    }
  }

  /**
    Quote doubling lets a backslash in the value end the literal early: the
    value `\'x` is escaped to `\''x`, whose `\'` reads as a quote, so the next
    quote closes the literal and `x'` is left outside it.
   */
  lemma BackslashQuoteEndsLiteral(rest: string)
    ensures Escape([Backslash, Quote, 'x']) == [Backslash, Quote, Quote, 'x']
    ensures ReadLiteral(Escape([Backslash, Quote, 'x']) + [Quote] + rest) == Some(([Quote], ['x', Quote] + rest))
  {
    var e := [Backslash, Quote, 'x'];
    assert e[1..] == [Quote, 'x'] && e[1..][1..] == ['x'] && e[1..][1..][1..] == [];
    var u := [Quote] + (['x', Quote] + rest);
    var t := [Backslash, Quote] + u;
    assert Escape(e) + [Quote] + rest == t by {
      assert Escape(e[1..][1..][1..]) == [];
      assert Escape(e[1..][1..]) == ['x'];
      assert Escape(e[1..]) == [Quote, Quote, 'x'];
      assert Escape(e) == [Backslash, Quote, Quote, 'x'];
      assert [Backslash, Quote, Quote, 'x'] + [Quote] == [Backslash, Quote] + [Quote] + ['x', Quote];
    }
    ReadLiteralPair(Backslash, Quote, u);
    assert u[1] == 'x' && u[1..] == ['x', Quote] + rest;
    assert ReadLiteral(u) == Some(("", ['x', Quote] + rest));
    assert BackslashValue(Quote) == Quote && [Quote] + "" == [Quote];
  }

  /** `s` with both `'` and `\` doubled, the escaping Snowflake's literals need. */
  function EscapeLiteral(s: string): (e: string)
    ensures |e| >= |s| + QuoteCount(s)
    ensures NoBackslash(s) ==> e == Escape(s)
  {
    if s == [] then ""
    else
      assert NoBackslash(s) ==> NoBackslash(s[1..]) by {
        if NoBackslash(s) {
          forall k | 0 <= k < |s[1..]| ensures s[1..][k] != Backslash {
            assert s[1..][k] == s[k + 1];
          }
        }
      }
      (if s[0] == Quote then [Quote, Quote]
       else if s[0] == Backslash then [Backslash, Backslash]
       else [s[0]]) + EscapeLiteral(s[1..])
  }

  /**
    Any value escaped with `EscapeLiteral`, followed by a closing quote, reads
    back as exactly that value, and the literal ends at that quote.
   */
  lemma {:induction false} ReadEscapedLiteralSafe(s: string, rest: string)
    requires rest == [] || rest[0] != Quote
    ensures ReadLiteral(EscapeLiteral(s) + [Quote] + rest) == Some((s, rest))
  {
    if s == [] {
      assert EscapeLiteral(s) + [Quote] + rest == [Quote] + rest;
    } else {
      ReadEscapedLiteralSafeStep(s, rest);
      ReadEscapedLiteralSafe(s[1..], rest);
      assert [s[0]] + s[1..] == s;
    }
  }

  /** The escape of the first character reads back as that character. */
  lemma ReadEscapedLiteralSafeStep(s: string, rest: string)
    requires s != []
    ensures ReadLiteral(EscapeLiteral(s) + [Quote] + rest)
         == Prepend(s[0], ReadLiteral(EscapeLiteral(s[1..]) + [Quote] + rest))
  {
    var head := if s[0] == Quote then [Quote, Quote]
                else if s[0] == Backslash then [Backslash, Backslash]
                else [s[0]];
    var inner := EscapeLiteral(s[1..]) + [Quote] + rest;
    assert EscapeLiteral(s) == head + EscapeLiteral(s[1..]);
    Regroup(head, EscapeLiteral(s[1..]), [Quote], rest);
    if s[0] == Quote {
      ReadLiteralPair(Quote, Quote, inner);
    } else if s[0] == Backslash {
      ReadLiteralPair(Backslash, Backslash, inner);
    } else {
      ReadLiteralPlain(s[0], inner);
    }
  }

  // ---------------------------------------------------------------------------
  // The insert statement

  /** The statement text around the two literals, as the f-string on three lines lays it out. */
  const InsertHead: string :=
    "\n        INSERT INTO smoothies.public.orders (ingredients, NAME_ON_ORDER)\n        VALUES ("
  const InsertTail: string := ")\n    "

  /** The fixed text between the two escaped values. */
  const Middle: string := [Quote] + Separator + [Quote]

  /** The statement text shown in the preview and executed on submission. */
  function InsertStatement(ingredients: string, nameOnOrder: string): (stmt: string)
    ensures |stmt| == |InsertHead| + |InsertTail| + 6
      + |ingredients| + QuoteCount(ingredients) + |nameOnOrder| + QuoteCount(nameOnOrder)
    ensures stmt[..|InsertHead|] == InsertHead
    ensures stmt[|stmt| - |InsertTail|..] == InsertTail
  {
    InsertHead + [Quote] + Escape(ingredients) + Middle + Escape(nameOnOrder) + [Quote] + InsertTail
  }

  /** The statement with both values escaped by `EscapeLiteral`. */
  function SafeInsertStatement(ingredients: string, nameOnOrder: string): (stmt: string)
    ensures NoBackslash(ingredients) && NoBackslash(nameOnOrder) ==>
      stmt == InsertStatement(ingredients, nameOnOrder)
  {
    InsertHead + [Quote] + EscapeLiteral(ingredients) + Middle + EscapeLiteral(nameOnOrder) + [Quote] + InsertTail
  }

  /** `t` minus the prefix `p`, or None when `t` does not start with `p`. */
  function After(p: string, t: string): Option<string>
  {
    if |p| <= |t| && t[..|p|] == p then Some(t[|p|..]) else None
  }

  lemma AfterPrefix(p: string, t: string)
    ensures After(p, p + t) == Some(t)
  {
    assert (p + t)[..|p|] == p;
    assert (p + t)[|p|..] == t;
  }

  /**
    Reads a statement of the insert template: the fixed head, a literal, the
    separator, a second literal and the fixed tail. Gives the two values in
    column order (ingredients, NAME_ON_ORDER).
   */
  function ParseInsert(stmt: string): Option<(string, string)>
  {
    match After(InsertHead + [Quote], stmt)
    case None => None
    case Some(body) =>
      match ReadLiteral(body)
      case None => None
      case Some(first) =>
        match After(Separator + [Quote], first.1)
        case None => None
        case Some(body2) =>
          match ReadLiteral(body2)
          case None => None
          case Some(second) =>
            if second.1 == InsertTail then Some((first.0, second.0)) else None
  }

  lemma StatementLayout(head: string, first: string, second: string, tail: string)
    ensures head + [Quote] + first + Middle + second + [Quote] + tail
         == (head + [Quote]) + (first + [Quote] + (Separator + [Quote] + (second + [Quote] + tail)))
  {
  }

  /**
    The template reads back as the two values whenever each escaped value,
    followed by its closing quote and what comes after, reads as one literal.
   */
  lemma ParseTemplate(a: string, b: string, ea: string, eb: string)
    requires ReadLiteral(ea + [Quote] + (Separator + [Quote] + (eb + [Quote] + InsertTail)))
          == Some((a, Separator + [Quote] + (eb + [Quote] + InsertTail)))
    requires ReadLiteral(eb + [Quote] + InsertTail) == Some((b, InsertTail))
    ensures ParseInsert(InsertHead + [Quote] + ea + Middle + eb + [Quote] + InsertTail) == Some((a, b))
  {
    var second := eb + [Quote] + InsertTail;
    var afterFirst := Separator + [Quote] + second;
    StatementLayout(InsertHead, ea, eb, InsertTail);
    AfterPrefix(InsertHead + [Quote], ea + [Quote] + afterFirst);
    AfterPrefix(Separator + [Quote], second);
  }

  /**
    Without backslashes in either value, the statement reads back as the fixed
    template with exactly those two values, ingredients first: neither value
    can end its literal early or add text outside it.
   */
  lemma ParseInsertStatement(ingredients: string, nameOnOrder: string)
    requires NoBackslash(ingredients) && NoBackslash(nameOnOrder)
    ensures ParseInsert(InsertStatement(ingredients, nameOnOrder)) == Some((ingredients, nameOnOrder))
  {
    var afterFirst := Separator + [Quote] + (Escape(nameOnOrder) + [Quote] + InsertTail);
    assert afterFirst[0] == ',';
    ReadEscapedLiteral(ingredients, afterFirst);
    assert InsertTail[0] == ')';
    ReadEscapedLiteral(nameOnOrder, InsertTail);
    ParseTemplate(ingredients, nameOnOrder, Escape(ingredients), Escape(nameOnOrder));
  }

  /**
    With the name `\'x` the statement no longer has the template's form: the
    name's literal closes after `\'`, and `x')` follows it where only the
    closing parenthesis belongs.
   */
  lemma InsertStatementBackslashBreaksOut(ingredients: string)
    requires NoBackslash(ingredients)
    ensures ParseInsert(InsertStatement(ingredients, [Backslash, Quote, 'x'])) == None
  {
    var name := [Backslash, Quote, 'x'];
    var second := Escape(name) + [Quote] + InsertTail;
    var afterFirst := Separator + [Quote] + second;
    assert afterFirst[0] == ',';
    ReadEscapedLiteral(ingredients, afterFirst);
    StatementLayout(InsertHead, Escape(ingredients), Escape(name), InsertTail);
    AfterPrefix(InsertHead + [Quote], Escape(ingredients) + [Quote] + afterFirst);
    AfterPrefix(Separator + [Quote], second);
    BackslashQuoteEndsLiteral(InsertTail);
    assert |['x', Quote] + InsertTail| != |InsertTail|;
  }

  /**
    With `EscapeLiteral`, whatever the two values hold, the statement reads
    back as the fixed template with exactly those two values, ingredients first.
   */
  lemma ParseSafeInsertStatement(ingredients: string, nameOnOrder: string)
    ensures ParseInsert(SafeInsertStatement(ingredients, nameOnOrder)) == Some((ingredients, nameOnOrder))
  {
    var afterFirst := Separator + [Quote] + (EscapeLiteral(nameOnOrder) + [Quote] + InsertTail);
    assert afterFirst[0] == ',';
    ReadEscapedLiteralSafe(ingredients, afterFirst);
    assert InsertTail[0] == ')';
    ReadEscapedLiteralSafe(nameOnOrder, InsertTail);
    ParseTemplate(ingredients, nameOnOrder, EscapeLiteral(ingredients), EscapeLiteral(nameOnOrder));
  }
}
