/**
 * The JavaScript built-ins on strings that the journal code relies on:
 * `String.prototype.split` and `Array.prototype.join` with a one-character
 * separator, `String.prototype.trim`, `Number.prototype.toString` on integers,
 * and the default comparison that `Array.prototype.sort` applies to strings.
 */
module Text {

  // ----- split and join -----

  /** `s.split(sep)`: the maximal pieces of `s` between occurrences of `sep`, in order. */
  function Split(s: string, sep: char): (parts: seq<string>)
    ensures |parts| >= 1
  {
    if |s| == 0 then [""]
    else
      var rest := Split(s[1..], sep);
      if s[0] == sep then [""] + rest
      else [[s[0]] + rest[0]] + rest[1..]
  }

  /** `parts.join(sep)`. */
  function Join(parts: seq<string>, sep: char): string
  {
    if |parts| == 0 then ""
    else if |parts| == 1 then parts[0]
    else parts[0] + [sep] + Join(parts[1..], sep)
  }

  /** Joining the pieces of a split with the same separator gives the string back. */
  lemma {:induction false} JoinSplit(s: string, sep: char)
    ensures Join(Split(s, sep), sep) == s
  {
    if |s| > 0 {
      var rest := Split(s[1..], sep);
      JoinSplit(s[1..], sep);
      if s[0] == sep {
        assert ([""] + rest)[1..] == rest;
      } else {
        var parts := [[s[0]] + rest[0]] + rest[1..];
        if |rest| > 1 {
          assert parts[1..] == rest[1..];
        }
      }
      assert s == [s[0]] + s[1..];
    }
  }

  /** No piece of a split contains the separator. */
  lemma {:induction false} SplitPartsLackSeparator(s: string, sep: char)
    ensures forall p :: p in Split(s, sep) ==> sep !in p
  {
    if |s| > 0 {
      SplitPartsLackSeparator(s[1..], sep);
      var rest := Split(s[1..], sep);
      if s[0] != sep {
        assert rest[0] in rest;
        forall p | p in Split(s, sep) ensures sep !in p {
          if p != [s[0]] + rest[0] {
            assert p in rest[1..];
          }
        }
      }
    }
  }

  /** Every character of a piece of a split comes from the string split. */
  lemma {:induction false} SplitPartsWithin(s: string, sep: char)
    ensures forall p, c :: p in Split(s, sep) && c in p ==> c in s
  {
    if |s| > 0 {
      SplitPartsWithin(s[1..], sep);
      var rest := Split(s[1..], sep);
      assert forall c :: c in s[1..] ==> c in s;
      if s[0] != sep {
        assert rest[0] in rest;
        forall p, c | p in Split(s, sep) && c in p ensures c in s {
          if p != [s[0]] + rest[0] {
            assert p in rest[1..];
          }
        }
      }
    }
  }

  /** A string that does not contain the separator splits into itself alone. */
  lemma {:induction false} SplitWithoutSeparator(s: string, sep: char)
    requires sep !in s
    ensures Split(s, sep) == [s]
  {
    if |s| > 0 {
      assert sep !in s[1..];
      SplitWithoutSeparator(s[1..], sep);
      assert [s[0]] + s[1..] == s;
    }
  }

  /** Splitting `head + sep + tail`, where `head` lacks the separator, gives `head` and then the pieces of `tail`. */
  lemma {:induction false} SplitAtFirst(head: string, tail: string, sep: char)
    requires sep !in head
    ensures Split(head + [sep] + tail, sep) == [head] + Split(tail, sep)
  {
    var s := head + [sep] + tail;
    if |head| == 0 {
      assert s[1..] == tail;
    } else {
      assert s[1..] == head[1..] + [sep] + tail;
      assert sep !in head[1..];
      SplitAtFirst(head[1..], tail, sep);
      assert [head[0]] + head[1..] == head;
    }
  }

  /** Splitting pieces joined with a separator none of them contains gives the pieces back. */
  lemma {:induction false} SplitJoin(parts: seq<string>, sep: char)
    requires |parts| >= 1
    requires forall p :: p in parts ==> sep !in p
    ensures Split(Join(parts, sep), sep) == parts
    decreases |parts|
  {
    assert parts[0] in parts;
    if |parts| == 1 {
      SplitWithoutSeparator(parts[0], sep);
    } else {
      var rest := parts[1..];
      assert forall p :: p in rest ==> p in parts;
      SplitJoin(rest, sep);
      SplitAtFirst(parts[0], Join(rest, sep), sep);
      assert parts == [parts[0]] + rest;
    }
  }

  /**
   * The first piece of a split is the text before the first separator, and
   * joining the other pieces gives the text after it (empty when there is none).
   */
  lemma SplitHeadAndRest(s: string, sep: char)
    ensures sep !in s ==> Split(s, sep)[0] == s && Join(Split(s, sep)[1..], sep) == ""
    ensures forall i :: 0 <= i < |s| && s[i] == sep && sep !in s[..i] ==>
      Split(s, sep)[0] == s[..i] && Join(Split(s, sep)[1..], sep) == s[i + 1..]
  {
    if sep !in s {
      SplitWithoutSeparator(s, sep);
    }
    forall i | 0 <= i < |s| && s[i] == sep && sep !in s[..i]
      ensures Split(s, sep)[0] == s[..i] && Join(Split(s, sep)[1..], sep) == s[i + 1..]
    {
      assert s == s[..i] + [sep] + s[i + 1..];
      SplitAtFirst(s[..i], s[i + 1..], sep);
      assert Split(s, sep)[1..] == Split(s[i + 1..], sep);
      JoinSplit(s[i + 1..], sep);
    }
  }

  // ----- trim -----

  /** The code points `String.prototype.trim` removes: ECMAScript WhiteSpace and LineTerminator. */
  predicate IsWhitespace(c: char)
  {
    || c == '\t' || c == '\n' || c == '\U{000B}' || c == '\U{000C}' || c == '\r' || c == ' '
    || c == '\U{00A0}' || c == '\U{1680}' || ('\U{2000}' <= c <= '\U{200A}')
    || c == '\U{2028}' || c == '\U{2029}' || c == '\U{202F}' || c == '\U{205F}'
    || c == '\U{3000}' || c == '\U{FEFF}'
  }

  /** A string made of whitespace only (the empty string included). */
  predicate IsBlank(s: string)
  {
    forall i :: 0 <= i < |s| ==> IsWhitespace(s[i])
  }

  function TrimStart(s: string): string
  {
    if |s| > 0 && IsWhitespace(s[0]) then TrimStart(s[1..]) else s
  }

  function TrimEnd(s: string): string
  {
    if |s| > 0 && IsWhitespace(s[|s| - 1]) then TrimEnd(s[..|s| - 1]) else s
  }

  /** `s.trim()`. */
  function Trim(s: string): string
  {
    TrimEnd(TrimStart(s))
  }

  lemma {:induction false} TrimStartBlank(s: string)
    ensures TrimStart(s) == "" <==> IsBlank(s)
    ensures TrimStart(s) != "" ==> !IsWhitespace(TrimStart(s)[0])
  {
    if |s| > 0 && IsWhitespace(s[0]) {
      TrimStartBlank(s[1..]);
      if IsBlank(s[1..]) {
        forall i | 0 <= i < |s| ensures IsWhitespace(s[i]) {
          if i > 0 { assert s[i] == s[1..][i - 1]; }
        }
      }
    }
  }

  lemma {:induction false} TrimEndKeepsHead(s: string)
    requires |s| > 0 && !IsWhitespace(s[0])
    ensures TrimEnd(s) != ""
  {
    if IsWhitespace(s[|s| - 1]) {
      assert |s| > 1;
      TrimEndKeepsHead(s[..|s| - 1]);
    }
  }

  /** Trimming leaves nothing exactly when the string is blank. */
  lemma TrimEmptyIffBlank(s: string)
    ensures Trim(s) == "" <==> IsBlank(s)
  {
    TrimStartBlank(s);
    if TrimStart(s) != "" {
      TrimEndKeepsHead(TrimStart(s));
    }
  }

  /** `tokens.filter(t => t.trim() !== '')`. */
  function NonBlank(tokens: seq<string>): (kept: seq<string>)
    ensures forall t :: t in kept <==> t in tokens && !IsBlank(t)
    ensures |kept| <= |tokens|
  {
    if |tokens| == 0 then []
    else
      TrimEmptyIffBlank(tokens[0]);
      var rest := NonBlank(tokens[1..]);
      assert forall t :: t in tokens <==> t == tokens[0] || t in tokens[1..];
      (if Trim(tokens[0]) != "" then [tokens[0]] else []) + rest
  }

  /** Filtering out blank tokens leaves a list without any unchanged. */
  lemma {:induction false} NonBlankKeepsNonBlank(tokens: seq<string>)
    requires forall t :: t in tokens ==> !IsBlank(t)
    ensures NonBlank(tokens) == tokens
    decreases |tokens|
  {
    if |tokens| > 0 {
      assert tokens[0] in tokens;
      TrimEmptyIffBlank(tokens[0]);
      assert forall t :: t in tokens[1..] ==> t in tokens;
      NonBlankKeepsNonBlank(tokens[1..]);
      assert tokens == [tokens[0]] + tokens[1..];
    }
  }

  // ----- integers as decimal strings -----

  function DigitChar(d: nat): (c: char)
    requires d < 10
    ensures '0' <= c <= '9'
  {
    ('0' as int + d) as char
  }

  /** The decimal digits of `n`, most significant first, without leading zeros. */
  function Digits(n: nat): (s: string)
    ensures |s| >= 1
    ensures forall i :: 0 <= i < |s| ==> '0' <= s[i] <= '9'
  {
    if n < 10 then [DigitChar(n)] else Digits(n / 10) + [DigitChar(n % 10)]
  }

  /** `n.toString()` for an integer `n`. */
  function DecimalString(n: int): string
  {
    if n < 0 then "-" + Digits(-n) else Digits(n)
  }

  lemma {:induction false} DigitsInjective(a: nat, b: nat)
    requires Digits(a) == Digits(b)
    ensures a == b
  {
    if a >= 10 && b >= 10 {
      var da, db := Digits(a), Digits(b);
      assert da[|da| - 1] == db[|db| - 1];
      assert DigitChar(a % 10) == DigitChar(b % 10);
      assert Digits(a / 10) == da[..|da| - 1] == db[..|db| - 1] == Digits(b / 10);
      DigitsInjective(a / 10, b / 10);
    }
  }

  /** Two integers have the same decimal string exactly when they are equal. */
  lemma DecimalStringInjective(a: int, b: int)
    ensures DecimalString(a) == DecimalString(b) <==> a == b
  {
    assert DecimalString(a)[0] == '-' <==> a < 0;
    assert DecimalString(b)[0] == '-' <==> b < 0;
    if DecimalString(a) == DecimalString(b) {
      if a < 0 && b < 0 {
        assert Digits(-a) == DecimalString(a)[1..];
        DigitsInjective(-a, -b);
      } else if a >= 0 && b >= 0 {
        DigitsInjective(a, b);
      }
    }
  }

  // ----- the default order of Array.prototype.sort on strings -----

  /** `a` sorts strictly before `b`: character by character, a proper prefix first. */
  predicate Less(a: string, b: string)
  {
    if |a| == 0 then |b| > 0
    else if |b| == 0 then false
    else if a[0] != b[0] then a[0] < b[0]
    else Less(a[1..], b[1..])
  }

  lemma {:induction false} LessIrreflexive(a: string)
    ensures !Less(a, a)
  {
    if |a| > 0 {
      LessIrreflexive(a[1..]);
    }
  }

  lemma {:induction false} LessTransitive(a: string, b: string, c: string)
    requires Less(a, b) && Less(b, c)
    ensures Less(a, c)
  {
    if |a| > 0 && a[0] == b[0] && b[0] == c[0] {
      LessTransitive(a[1..], b[1..], c[1..]);
    }
  }

  lemma {:induction false} LessConnected(a: string, b: string)
    requires a != b
    ensures Less(a, b) || Less(b, a)
  {
    if |a| > 0 && |b| > 0 && a[0] == b[0] {
      assert a == [a[0]] + a[1..] && b == [b[0]] + b[1..];
      LessConnected(a[1..], b[1..]);
    }
  }

  /** Neither `a` nor `c` sorts after `b` in the wrong direction: `!Less(b, a) && !Less(c, b)` gives `!Less(c, a)`. */
  lemma NotLessTransitive(a: string, b: string, c: string)
    requires !Less(b, a) && !Less(c, b)
    ensures !Less(c, a)
  {
    if Less(c, a) {
      if a == b {
      } else {
        LessConnected(a, b);
        LessTransitive(c, a, b);
      }
    }
  }

  /** Every string is followed only by strings that do not sort before it. */
  ghost predicate Ascending(s: seq<string>)
  {
    forall i, j :: 0 <= i < j < |s| ==> !Less(s[j], s[i])
  }

  /** Inserts `x` into the ascending sequence `s` before the first element that does not sort before it. */
  function Insert(x: string, s: seq<string>): (r: seq<string>)
    requires Ascending(s)
    ensures multiset(r) == multiset(s) + multiset{x}
    ensures Ascending(r)
  {
    if |s| == 0 || !Less(s[0], x) then
      forall j | 0 <= j < |s| ensures !Less(s[j], x) {
        if j > 0 { NotLessTransitive(x, s[0], s[j]); }
      }
      [x] + s
    else
      var rest := Insert(x, s[1..]);
      assert s == [s[0]] + s[1..];
      forall j | 0 <= j < |rest| ensures !Less(rest[j], s[0]) {
        assert rest[j] in multiset(rest);
        if rest[j] == x {
          LessIrreflexive(x);
          if Less(x, s[0]) { LessTransitive(x, s[0], x); }
        } else {
          assert rest[j] in s[1..];
        }
      }
      [s[0]] + rest
  }

  /** `s.sort()` with the default comparison: the elements of `s` in ascending order. */
  function Sort(s: seq<string>): (r: seq<string>)
    ensures multiset(r) == multiset(s)
    ensures Ascending(r)
  {
    if |s| == 0 then []
    else
      assert s == s[..|s| - 1] + [s[|s| - 1]];
      Insert(s[|s| - 1], Sort(s[..|s| - 1]))
  }
}
