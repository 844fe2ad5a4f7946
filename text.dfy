/** The string operations of the Python runtime that the cron code relies on:
    `str.split(sep)`, `sep.join(...)`, `str.partition(sep)`, `str.split()` with no
    argument, `int(...)` on a decimal field and `str(...)` of a non-negative integer. */
module Text {
  import opened Results

  /** A non-empty sequence is its front followed by its last element. */
  lemma FrontLast<T>(s: seq<T>)
    requires s != []
    ensures s == s[..|s| - 1] + [s[|s| - 1]]
  {
  }

  /** A longer prefix is the shorter one and the next element. */
  lemma TakeSnoc<T>(s: seq<T>, i: nat)
    requires i < |s|
    ensures s[..i + 1] == s[..i] + [s[i]]
  {
  }

  /** Dropping one more element after a suffix is the next suffix. */
  lemma DropNext<T>(s: seq<T>, i: nat)
    requires i < |s|
    ensures s[i..][1..] == s[i + 1..]
  {
  }

  /** The prefix one shorter than a prefix, and the last element of that prefix. */
  lemma TakeTake<T>(s: seq<T>, i: nat)
    requires i < |s|
    ensures s[..i + 1][..i] == s[..i] && s[..i + 1][i] == s[i]
  {
  }

  /** The head and tail of a concatenation whose first part is non-empty. */
  lemma ConsTail<T>(a: seq<T>, b: seq<T>)
    requires a != []
    ensures (a + b)[0] == a[0] && (a + b)[1..] == a[1..] + b
  {
  }

  /** A non-empty prefix is the first element and a prefix of the tail. */
  lemma TakeCons<T>(s: seq<T>, i: nat)
    requires 0 < i <= |s|
    ensures s[..i] == [s[0]] + s[1..][..i - 1]
  {
  }

  // ---------------------------------------------------------------------------
  // sep.join(parts) and s.split(sep) for a one-character separator
  // ---------------------------------------------------------------------------

  /** `sep.join(parts)`: the empty list joins to the empty string. */
  function Join(parts: seq<string>, sep: char): string
  {
    if parts == [] then []
    else if |parts| == 1 then parts[0]
    else parts[0] + [sep] + Join(parts[1..], sep)
  }

  /** `s.split(sep)`: the pieces between consecutive separators, so there is always at
      least one piece and no piece holds the separator. */
  function Split(s: string, sep: char): (parts: seq<string>)
    ensures |parts| >= 1
    ensures forall k :: 0 <= k < |parts| ==> sep !in parts[k]
    decreases |s|
  {
    if s == [] then [[]]
    else
      var rest := Split(s[1..], sep);
      if s[0] == sep then [[]] + rest
      else [[s[0]] + rest[0]] + rest[1..]
  }

  /** Joining the pieces of a split with its separator gives the text back. */
  lemma {:induction false} SplitJoin(s: string, sep: char)
    ensures Join(Split(s, sep), sep) == s
    decreases |s|
  {
    if s != [] {
      var rest := Split(s[1..], sep);
      SplitJoin(s[1..], sep);
      if s[0] == sep {
        assert ([[]] + rest)[1..] == rest;
      } else {
        var parts := [[s[0]] + rest[0]] + rest[1..];
        assert |rest| > 1 ==> parts[1..] == rest[1..];
        assert [s[0]] + s[1..] == s;
      }
    }
  }

  /** Each piece of a join, plus one separator per further piece, fits in the joined text. */
  lemma {:induction false} JoinPartLength(parts: seq<string>, sep: char, k: nat)
    requires k < |parts|
    ensures |parts[k]| + |parts| - 1 <= |Join(parts, sep)|
  {
    if |parts| > 1 {
      JoinPartLength(parts[1..], sep, if k > 0 then k - 1 else 0);
    }
  }

  /** Every character of a piece occurs in the joined text. */
  lemma {:induction false} JoinPartChars(parts: seq<string>, sep: char, k: nat, c: char)
    requires k < |parts| && c in parts[k]
    ensures c in Join(parts, sep)
  {
    if |parts| > 1 && k > 0 {
      JoinPartChars(parts[1..], sep, k - 1, c);
    }
  }

  /** Joining one more piece adds a separator and the piece at the end. */
  lemma {:induction false} JoinSnoc(parts: seq<string>, sep: char, p: string)
    requires parts != []
    ensures Join(parts + [p], sep) == Join(parts, sep) + [sep] + p
  {
    if |parts| > 1 {
      JoinSnoc(parts[1..], sep, p);
      assert (parts + [p])[1..] == parts[1..] + [p];
    }
  }

  /** Joining two non-empty lists is joining each and putting one separator between. */
  lemma {:induction false} JoinAppend(a: seq<string>, b: seq<string>, sep: char)
    requires a != [] && b != []
    ensures Join(a + b, sep) == Join(a, sep) + [sep] + Join(b, sep)
  {
    if |a| > 1 {
      JoinAppend(a[1..], b, sep);
      assert (a + b)[1..] == a[1..] + b;
    } else {
      assert (a + b)[1..] == b;
    }
  }

  /** A character other than the separator that no piece holds is not in the join. */
  lemma {:induction false} JoinWithout(parts: seq<string>, sep: char, c: char)
    requires c != sep
    requires forall k :: 0 <= k < |parts| ==> c !in parts[k]
    ensures c !in Join(parts, sep)
  {
    if |parts| > 1 {
      JoinWithout(parts[1..], sep, c);
    }
  }

  /** A piece of `s.split(sep)` is no longer than `s`, and shorter when `sep` occurs in `s`. */
  lemma SplitPartShorter(s: string, sep: char, k: nat)
    requires k < |Split(s, sep)|
    ensures |Split(s, sep)[k]| <= |s|
    ensures |Split(s, sep)| > 1 ==> |Split(s, sep)[k]| < |s|
  {
    SplitJoin(s, sep);
    JoinPartLength(Split(s, sep), sep, k);
  }

  /** A character missing from `s` is missing from every piece of `s.split(sep)`. */
  lemma SplitPartWithout(s: string, sep: char, k: nat, c: char)
    requires k < |Split(s, sep)| && c !in s
    ensures c !in Split(s, sep)[k]
  {
    if c in Split(s, sep)[k] {
      SplitJoin(s, sep);
      JoinPartChars(Split(s, sep), sep, k, c);
    }
  }

  /** Text without the separator splits into itself alone. */
  lemma {:induction false} SplitWithoutSep(s: string, sep: char)
    requires sep !in s
    ensures Split(s, sep) == [s]
    decreases |s|
  {
    if s != [] {
      SplitWithoutSep(s[1..], sep);
      assert [s[0]] + s[1..] == s;
    }
  }

  /** `sep in s` exactly when `s.split(sep)` has two pieces or more. */
  lemma SplitCount(s: string, sep: char)
    ensures sep in s <==> |Split(s, sep)| > 1
  {
    if sep !in s {
      SplitWithoutSep(s, sep);
    } else {
      var parts := Split(s, sep);
      assert Join([parts[0]], sep) == parts[0];
    }
  }

  /** Splitting a text that starts with a separator-free piece and a separator. */
  lemma {:induction false} SplitAfterPiece(p: string, sep: char, r: string)
    requires sep !in p
    ensures Split(p + [sep] + r, sep) == [p] + Split(r, sep)
    decreases |p|
  {
    if p == [] {
      assert ([] + [sep] + r)[1..] == r;
    } else {
      SplitAfterPiece(p[1..], sep, r);
      assert (p + [sep] + r)[1..] == p[1..] + [sep] + r;
      assert [p[0]] + p[1..] == p;
    }
  }

  /** `s.split(sep)` inverts `sep.join(parts)` when no piece holds the separator. */
  lemma {:induction false} SplitOfJoin(parts: seq<string>, sep: char)
    requires |parts| >= 1
    requires forall k :: 0 <= k < |parts| ==> sep !in parts[k]
    ensures Split(Join(parts, sep), sep) == parts
  {
    if |parts| == 1 {
      SplitWithoutSep(parts[0], sep);
    } else {
      SplitOfJoin(parts[1..], sep);
      SplitAfterPiece(parts[0], sep, Join(parts[1..], sep));
      assert [parts[0]] + parts[1..] == parts;
    }
  }

  /** A text with one separator splits into the two sides. */
  lemma SplitTwo(a: string, b: string, sep: char)
    requires sep !in a && sep !in b
    ensures Split(a + [sep] + b, sep) == [a, b]
  {
    SplitAfterPiece(a, sep, b);
    SplitWithoutSep(b, sep);
  }

  /** A text with two separators splits into three pieces. */
  lemma SplitThree(a: string, b: string, c: string, sep: char)
    requires sep !in a && sep !in b && sep !in c
    ensures Split(a + [sep] + b + [sep] + c, sep) == [a, b, c]
  {
    assert a + [sep] + b + [sep] + c == a + [sep] + (b + [sep] + c);
    SplitAfterPiece(a, sep, b + [sep] + c);
    SplitTwo(b, c, sep);
  }

  // ---------------------------------------------------------------------------
  // s.partition(sep)
  // ---------------------------------------------------------------------------

  /** `s.partition(sep)` without its middle element: the text before the first
      separator and the text after it, or `(s, "")` when there is no separator. */
  function Partition(s: string, sep: char): (r: (string, string))
    ensures sep !in r.0
    ensures sep !in s ==> r == (s, [])
  {
    if s == [] then ([], [])
    else if s[0] == sep then ([], s[1..])
    else
      var (a, b) := Partition(s[1..], sep);
      assert [s[0]] + s[1..] == s;
      ([s[0]] + a, b)
  }

  /** With a separator present, the part before, the separator and the part after make
      up the text. */
  lemma {:induction false} PartitionJoin(s: string, sep: char)
    requires sep in s
    ensures Partition(s, sep).0 + [sep] + Partition(s, sep).1 == s
  {
    if s[0] != sep {
      PartitionJoin(s[1..], sep);
      assert [s[0]] + s[1..] == s;
    }
  }

  /** The part after the separator holds no character the text does not hold. */
  lemma {:induction false} PartitionRestWithout(s: string, sep: char, c: char)
    requires c !in s
    ensures c !in Partition(s, sep).1
  {
    if s != [] && s[0] != sep {
      PartitionRestWithout(s[1..], sep, c);
    }
  }

  /** Partitioning a text that starts with a separator-free piece and a separator. */
  lemma {:induction false} PartitionAfterPiece(p: string, sep: char, r: string)
    requires sep !in p
    ensures Partition(p + [sep] + r, sep) == (p, r)
    decreases |p|
  {
    if p == [] {
      assert ([] + [sep] + r)[1..] == r;
    } else {
      PartitionAfterPiece(p[1..], sep, r);
      assert (p + [sep] + r)[1..] == p[1..] + [sep] + r;
      assert [p[0]] + p[1..] == p;
    }
  }

  // ---------------------------------------------------------------------------
  // s.split() with no argument
  // ---------------------------------------------------------------------------

  /** Python's `str.isspace()` for a single character. */
  predicate IsSpace(c: char)
  {
    c == ' ' || c == '\t' || c == '\n' || c == '\r' || c == '\U{0B}' || c == '\U{0C}'
    || ('\U{1C}' <= c <= '\U{1F}') || c == '\U{85}' || c == '\U{A0}' || c == '\U{1680}'
    || ('\U{2000}' <= c <= '\U{200A}') || c == '\U{2028}' || c == '\U{2029}'
    || c == '\U{202F}' || c == '\U{205F}' || c == '\U{3000}'
  }

  predicate NoSpace(w: string)
  {
    forall i :: 0 <= i < |w| ==> !IsSpace(w[i])
  }

  /** Text without whitespace holds no whitespace character, such as a space or a line
      break. */
  lemma NoSpaceWithout(w: string, c: char)
    requires NoSpace(w) && IsSpace(c)
    ensures c !in w
  {
    assert forall i :: 0 <= i < |w| ==> w[i] != c;
  }

  /** The length of the longest prefix of `s` that holds no whitespace. */
  function WordLength(s: string): (n: nat)
    ensures n <= |s|
    ensures NoSpace(s[..n])
    ensures n < |s| ==> IsSpace(s[n])
  {
    if s == [] || IsSpace(s[0]) then 0
    else
      var m := WordLength(s[1..]);
      assert s[..1 + m] == [s[0]] + s[1..][..m];
      1 + m
  }

  /** `s.split()`: the maximal runs of non-whitespace characters, in order; every word
      is non-empty and holds no whitespace. */
  function Words(s: string): (ws: seq<string>)
    ensures forall k :: 0 <= k < |ws| ==> ws[k] != [] && NoSpace(ws[k])
    decreases |s|
  {
    if s == [] then []
    else if IsSpace(s[0]) then Words(s[1..])
    else
      var n := WordLength(s);
      [s[..n]] + Words(s[n..])
  }

  /** A whitespace-free word followed by whitespace (or nothing) is the first word. */
  lemma WordsAfterWord(w: string, r: string)
    requires w != [] && NoSpace(w)
    requires r == [] || IsSpace(r[0])
    ensures Words(w + r) == [w] + Words(r)
  {
    var s := w + r;
    var n := WordLength(s);
    assert forall i :: 0 <= i < |w| ==> s[i] == w[i];
    assert r != [] ==> s[|w|] == r[0];
    assert n == |w|;
    assert s[..n] == w && s[n..] == r;
  }

  /** `s.split()` inverts `" ".join(ws)` when every word is non-empty and space-free. */
  lemma {:induction false} WordsOfJoin(ws: seq<string>)
    requires |ws| >= 1
    requires forall k :: 0 <= k < |ws| ==> ws[k] != [] && NoSpace(ws[k])
    ensures Words(Join(ws, ' ')) == ws
  {
    if |ws| == 1 {
      WordsAfterWord(ws[0], []);
      assert ws[0] + [] == ws[0];
    } else {
      var tail := Join(ws[1..], ' ');
      WordsOfJoin(ws[1..]);
      WordsAfterWord(ws[0], [' '] + tail);
      assert ws[0] + [' '] + tail == ws[0] + ([' '] + tail);
      assert ([' '] + tail)[1..] == tail;
      assert [ws[0]] + ws[1..] == ws;
    }
  }

  /** A text whose words are separated by exactly one space each, with no other
      whitespace and none at either end. */
  predicate SingleSpaced(s: string)
  {
    s == [] ||
    forall k :: 0 <= k < |Split(s, ' ')| ==> Split(s, ' ')[k] != [] && NoSpace(Split(s, ' ')[k])
  }

  /** `" ".join(s.split())` gives `s` back exactly when `s` is single-spaced; the
      re-joined text is always single-spaced. */
  lemma SingleSpacedIff(s: string)
    ensures SingleSpaced(Join(Words(s), ' '))
    ensures Join(Words(s), ' ') == s <==> SingleSpaced(s)
  {
    var ws := Words(s);
    if ws != [] {
      forall k | 0 <= k < |ws| ensures ' ' !in ws[k] {
        assert forall i :: 0 <= i < |ws[k]| ==> ws[k][i] != ' ';
      }
      SplitOfJoin(ws, ' ');
    }
    if SingleSpaced(s) && s != [] {
      SplitJoin(s, ' ');
      WordsOfJoin(Split(s, ' '));
    }
  }

  // ---------------------------------------------------------------------------
  // int(s) on decimal digits and str(n)
  // ---------------------------------------------------------------------------

  predicate IsDigit(c: char)
  {
    '0' <= c <= '9'
  }

  predicate AllDigits(s: string)
  {
    forall i :: 0 <= i < |s| ==> IsDigit(s[i])
  }

  /** The value of a string of decimal digits, most significant first. */
  function DigitsValue(s: string): nat
    requires AllDigits(s)
  {
    if s == [] then 0
    else 10 * DigitsValue(s[..|s| - 1]) + (s[|s| - 1] as int - '0' as int)
  }

  /** `str(n)` for a non-negative integer: its decimal digits, with no leading zero. */
  function NatToString(n: nat): (s: string)
    ensures s != [] && AllDigits(s)
    ensures DigitsValue(s) == n
    ensures s[0] == '0' ==> s == "0"
  {
    if n < 10 then [('0' as int + n) as char]
    else
      var s := NatToString(n / 10) + [('0' as int + n % 10) as char];
      assert s[..|s| - 1] == NatToString(n / 10);
      s
  }

  /** `int(s)` where `s` is a non-empty string of ASCII digits; `None` is the
      `ValueError` that `int` raises on anything else. */
  function ParseNat(s: string): Option<nat>
  {
    if s != [] && AllDigits(s) then Some(DigitsValue(s)) else None
  }

  /** `int(str(n)) == n`. */
  lemma ParseNatOfString(n: nat)
    ensures ParseNat(NatToString(n)) == Some(n)
  {
  }
}
