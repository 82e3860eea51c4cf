/**
 * String helpers the pipeline relies on: Python's `str.join`, `str.endswith`,
 * `str.strip`, decimal formatting of an int in an f-string, DuckDB's
 * `split_part` and RE2's `\s+` splitting used by `regexp_split_to_array`.
 */
module Text {

  /** Python `sep.join(parts)`. */
  function Join(parts: seq<string>, sep: string): string
  {
    if |parts| == 0 then ""
    else if |parts| == 1 then parts[0]
    else parts[0] + sep + Join(parts[1..], sep)
  }

  /** Python `s.endswith(suffix)`. */
  predicate EndsWith(s: string, suffix: string)
  {
    |suffix| <= |s| && s[|s| - |suffix|..] == suffix
  }

  // ---------------------------------------------------------------------------
  // Splitting on a one-character separator (DuckDB string_split / split_part)
  // ---------------------------------------------------------------------------

  /** Every piece between occurrences of `c`, including empty ones at either end. */
  function Split(s: string, c: char): (parts: seq<string>)
    ensures |parts| >= 1
    ensures forall i :: 0 <= i < |parts| ==> c !in parts[i]
  {
    if |s| == 0 then [""]
    else
      var rest := Split(s[1..], c);
      if s[0] == c then [""] + rest
      else [[s[0]] + rest[0]] + rest[1..]
  }

  /**
   * DuckDB `split_part(s, c, i)`: the 1-based piece `i`, counted from the end when
   * `i` is negative, and the empty string when there is no such piece.
   */
  function SplitPart(s: string, c: char, i: int): (r: string)
    ensures c !in r
    ensures 1 <= i <= |Split(s, c)| ==> r == Split(s, c)[i - 1]
    ensures -|Split(s, c)| <= i <= -1 ==> r == Split(s, c)[|Split(s, c)| + i]
    ensures (i == 0 || i > |Split(s, c)| || i < -|Split(s, c)|) ==> r == ""
  {
    var parts := Split(s, c);
    if 1 <= i <= |parts| then parts[i - 1]
    else if -|parts| <= i <= -1 then parts[|parts| + i]
    else ""
  }

  /** Joining the pieces back with the separator gives the original string. */
  lemma {:induction false} JoinSplit(s: string, c: char)
    ensures Join(Split(s, c), [c]) == s
  {
    if |s| > 0 {
      JoinSplit(s[1..], c);
      var rest := Split(s[1..], c);
      if s[0] == c {
        assert Join([""] + rest, [c]) == "" + [c] + Join(rest, [c]);
        assert s == [c] + s[1..];
      } else {
        JoinHead([s[0]], rest, [c]);
        assert s == [s[0]] + s[1..];
      }
    }
  }

  /** Prepending text to the first part of a join prepends it to the result. */
  lemma JoinHead(x: string, parts: seq<string>, sep: string)
    requires |parts| >= 1
    ensures Join([x + parts[0]] + parts[1..], sep) == x + Join(parts, sep)
  {
    var ps := [x + parts[0]] + parts[1..];
    assert ps[1..] == parts[1..];
  }

  /** Splitting text with no separator in front of `s` glues it onto the first piece. */
  lemma {:induction false} SplitPrefix(x: string, s: string, c: char)
    requires c !in x
    ensures Split(x + s, c) == [x + Split(s, c)[0]] + Split(s, c)[1..]
  {
    if |x| > 0 {
      SplitPrefix(x[1..], s, c);
      var p := Split(s, c);
      var rest := Split(x[1..] + s, c);
      assert (x + s)[1..] == x[1..] + s;
      assert (x + s)[0] == x[0] && x[0] != c;
      assert Split(x + s, c) == [[x[0]] + rest[0]] + rest[1..];
      assert rest[0] == x[1..] + p[0] && rest[1..] == p[1..];
      assert [x[0]] + (x[1..] + p[0]) == x + p[0];
    } else {
      var parts := Split(s, c);
      assert x + s == s;
      assert x + parts[0] == parts[0];
      assert parts == [parts[0]] + parts[1..];
    }
  }

  /** Splitting a join of separator-free parts gives the parts back. */
  lemma {:induction false} SplitJoin(parts: seq<string>, c: char)
    requires |parts| >= 1
    requires forall i :: 0 <= i < |parts| ==> c !in parts[i]
    ensures Split(Join(parts, [c]), c) == parts
  {
    if |parts| == 1 {
      SplitPrefix(parts[0], "", c);
      assert parts[0] + "" == parts[0];
    } else {
      var tail := Join(parts[1..], [c]);
      SplitJoin(parts[1..], c);
      assert Join(parts, [c]) == parts[0] + ([c] + tail);
      SplitPrefix(parts[0], [c] + tail, c);
      assert ([c] + tail)[1..] == tail;
      assert Split([c] + tail, c) == [""] + parts[1..];
      assert parts[0] + "" == parts[0];
    }
  }

  // ---------------------------------------------------------------------------
  // Whitespace
  // ---------------------------------------------------------------------------

  /** Characters Python's `str.isspace` (and so `str.strip`) treats as whitespace. */
  predicate IsPySpace(ch: char)
  {
    ch == ' ' || ch == '\t' || ch == '\n' || ch == '\r' || ch == '\U{0B}' || ch == '\U{0C}'
    || ('\U{1C}' <= ch <= '\U{1F}') || ch == '\U{85}' || ch == '\U{A0}' || ch == '\U{1680}'
    || ('\U{2000}' <= ch <= '\U{200A}') || ch == '\U{2028}' || ch == '\U{2029}'
    || ch == '\U{202F}' || ch == '\U{205F}' || ch == '\U{3000}'
  }

  /** `s.strip() == ""`: the string is empty or made only of whitespace. */
  predicate IsBlank(s: string)
  {
    forall i :: 0 <= i < |s| ==> IsPySpace(s[i])
  }

  /** The characters of RE2's `\s` class, used by DuckDB's regular expressions. */
  predicate IsRegexSpace(ch: char)
  {
    ch == ' ' || ch == '\t' || ch == '\n' || ch == '\U{0C}' || ch == '\r'
  }

  /** `s` with its leading run of `\s` characters removed. */
  function SkipSpaces(s: string): (r: string)
    ensures |r| <= |s| && r == s[|s| - |r|..]
    ensures |r| > 0 ==> !IsRegexSpace(r[0])
  {
    if |s| > 0 && IsRegexSpace(s[0]) then SkipSpaces(s[1..]) else s
  }

  /**
   * DuckDB `regexp_split_to_array(p, '\s+')`: the pieces between maximal runs of
   * whitespace, with an empty piece before a leading run and after a trailing one.
   */
  function SpacePieces(s: string): (pieces: seq<string>)
    ensures |pieces| >= 1
    ensures forall i, j :: 0 <= i < |pieces| && 0 <= j < |pieces[i]| ==> !IsRegexSpace(pieces[i][j])
    decreases |s|
  {
    if |s| == 0 then [""]
    else if IsRegexSpace(s[0]) then [""] + SpacePieces(SkipSpaces(s[1..]))
    else
      var rest := SpacePieces(s[1..]);
      [[s[0]] + rest[0]] + rest[1..]
  }

  /** `s` with every `\s` character removed. */
  function DropSpaces(s: string): (r: string)
  {
    if |s| == 0 then ""
    else if IsRegexSpace(s[0]) then DropSpaces(s[1..])
    else [s[0]] + DropSpaces(s[1..])
  }

  /** Concatenation of a sequence of strings. */
  function Concat(parts: seq<string>): string
  {
    if |parts| == 0 then "" else parts[0] + Concat(parts[1..])
  }

  lemma {:induction false} DropLeadingSpaces(s: string)
    ensures DropSpaces(SkipSpaces(s)) == DropSpaces(s)
  {
    if |s| > 0 && IsRegexSpace(s[0]) {
      DropLeadingSpaces(s[1..]);
    }
  }

  /** The pieces hold exactly the non-whitespace characters of the paragraph, in order. */
  lemma {:induction false} SpacePiecesKeepText(s: string)
    ensures Concat(SpacePieces(s)) == DropSpaces(s)
    decreases |s|
  {
    if |s| > 0 {
      if IsRegexSpace(s[0]) {
        SpacePiecesKeepText(SkipSpaces(s[1..]));
        DropLeadingSpaces(s[1..]);
        assert Concat([""] + SpacePieces(SkipSpaces(s[1..])))
            == "" + Concat(SpacePieces(SkipSpaces(s[1..])));
      } else {
        SpacePiecesKeepText(s[1..]);
        var rest := SpacePieces(s[1..]);
        var ps := [[s[0]] + rest[0]] + rest[1..];
        assert ps[1..] == rest[1..];
        assert Concat(rest) == rest[0] + Concat(rest[1..]);
        assert Concat(ps) == [s[0]] + rest[0] + Concat(rest[1..]);
      }
    }
  }

  /** A paragraph without whitespace is a single piece, itself. */
  lemma {:induction false} SpacePiecesOfWord(s: string)
    requires forall i :: 0 <= i < |s| ==> !IsRegexSpace(s[i])
    ensures SpacePieces(s) == [s]
    decreases |s|
  {
    if |s| > 0 {
      SpacePiecesOfWord(s[1..]);
      assert [s[0]] + s[1..] == s;
    }
  }

  /** A word in front of any text joins the text's first piece. */
  lemma {:induction false} SpacePiecesPrefix(w: string, t: string)
    requires forall i :: 0 <= i < |w| ==> !IsRegexSpace(w[i])
    ensures SpacePieces(w + t) == [w + SpacePieces(t)[0]] + SpacePieces(t)[1..]
    decreases |w|
  {
    if |w| == 0 {
      assert w + t == t;
      assert w + SpacePieces(t)[0] == SpacePieces(t)[0];
      assert SpacePieces(t) == [SpacePieces(t)[0]] + SpacePieces(t)[1..];
    } else {
      SpacePiecesPrefix(w[1..], t);
      assert (w + t)[0] == w[0];
      assert (w + t)[1..] == w[1..] + t;
      assert [w[0]] + (w[1..] + SpacePieces(t)[0]) == w + SpacePieces(t)[0];
    }
  }

  /** Words joined by single spaces split back into those words. */
  lemma {:induction false} SpacePiecesOfWords(words: seq<string>)
    requires |words| >= 1
    requires forall k :: 0 <= k < |words| ==> |words[k]| > 0
    requires forall k, i :: 0 <= k < |words| && 0 <= i < |words[k]| ==> !IsRegexSpace(words[k][i])
    ensures SpacePieces(Join(words, " ")) == words
    decreases |words|
  {
    if |words| == 1 {
      SpacePiecesOfWord(words[0]);
    } else {
      var w, rest := words[0], Join(words[1..], " ");
      SpacePiecesOfWords(words[1..]);
      assert words[1..][0] == words[1];
      assert |rest| > 0 && rest[0] == words[1][0] by {
        if |words[1..]| == 1 {
          assert rest == words[1];
        } else {
          assert rest == words[1] + " " + Join(words[2..], " ");
        }
      }
      var t := " " + rest;
      assert t[0] == ' ' && t[1..] == rest;
      assert SkipSpaces(rest) == rest;
      assert SpacePieces(t) == [""] + words[1..];
      assert Join(words, " ") == w + t;
      SpacePiecesPrefix(w, t);
      assert w + "" == w;
    }
  }

  // ---------------------------------------------------------------------------
  // Decimal formatting
  // ---------------------------------------------------------------------------

  predicate IsDigit(ch: char)
  {
    '0' <= ch <= '9'
  }

  /** The decimal text of `n`, as an f-string `{n}` writes it. */
  function NatToString(n: nat): (s: string)
    ensures |s| >= 1
    ensures forall i :: 0 <= i < |s| ==> IsDigit(s[i])
    ensures n >= 10 ==> |s| >= 2
  {
    if n < 10 then [('0' as int + n) as char]
    else NatToString(n / 10) + [('0' as int + n % 10) as char]
  }

  /** Different numbers have different decimal texts. */
  lemma {:induction false} NatToStringInjective(a: nat, b: nat)
    requires NatToString(a) == NatToString(b)
    ensures a == b
  {
    var sa, sb := NatToString(a), NatToString(b);
    if a >= 10 && b >= 10 {
      assert sa[..|sa| - 1] == NatToString(a / 10);
      assert sb[..|sb| - 1] == NatToString(b / 10);
      NatToStringInjective(a / 10, b / 10);
      assert sa[|sa| - 1] == sb[|sb| - 1];
    }
  }

  /** Python `", ".join(f"'{v}'" for v in values)`: each value between single quotes, verbatim. */
  function QuotedList(values: seq<string>): (r: string)
    ensures |values| == 0 ==> r == ""
    ensures |values| == 1 ==> r == "'" + values[0] + "'"
  {
    Join(Quoted(values), ", ")
  }

  function Quoted(values: seq<string>): (q: seq<string>)
    ensures |q| == |values|
  {
    seq(|values|, i requires 0 <= i < |values| => "'" + values[i] + "'")
  }

  /** One more value adds `, '` value `'` to a non-empty list. */
  lemma QuotedListSnoc(values: seq<string>, v: string)
    requires |values| > 0
    ensures QuotedList(values + [v]) == QuotedList(values) + ", '" + v + "'"
  {
    assert Quoted(values + [v]) == Quoted(values) + ["'" + v + "'"];
    JoinSnoc(Quoted(values), "'" + v + "'", ", ");
  }

  /** Joining one more part adds the separator and that part. */
  lemma {:induction false} JoinSnoc(parts: seq<string>, x: string, sep: string)
    requires |parts| > 0
    ensures Join(parts + [x], sep) == Join(parts, sep) + sep + x
    decreases |parts|
  {
    if |parts| > 1 {
      assert (parts + [x])[1..] == parts[1..] + [x];
      JoinSnoc(parts[1..], x, sep);
    }
  }
}
