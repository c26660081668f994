/** The few functions of Go's `strings` package the program relies on, over
    strings as sequences of characters. */
module Strings {

  /** Number of occurrences of `c` in `s`. */
  function Count(s: string, c: char): (n: nat)
    ensures n <= |s|
    ensures n == 0 <==> c !in s
  {
    if s == [] then 0 else Count(s[1..], c) + (if s[0] == c then 1 else 0)
  }

  /** `strings.Split(s, string(sep))`: the pieces between the separators; an empty
      string gives one empty piece. */
  function Split(s: string, sep: char): (r: seq<string>)
    ensures |r| == Count(s, sep) + 1
    ensures forall i :: 0 <= i < |r| ==> sep !in r[i]
  {
    if s == [] then [""]
    else
      var rest := Split(s[1..], sep);
      if s[0] == sep then [""] + rest
      else [[s[0]] + rest[0]] + rest[1..]
  }

  /** `strings.Join(parts, string(sep))`. */
  function Join(parts: seq<string>, sep: char): string
  {
    if parts == [] then ""
    else if |parts| == 1 then parts[0]
    else parts[0] + [sep] + Join(parts[1..], sep)
  }

  /** Splitting pieces that are joined back together recovers the pieces, as long
      as none of them contains the separator. */
  lemma {:induction false} SplitJoin(parts: seq<string>, sep: char)
    requires |parts| >= 1
    requires forall i :: 0 <= i < |parts| ==> sep !in parts[i]
    ensures Split(Join(parts, sep), sep) == parts
  {
    if |parts| == 1 {
      SplitNoSep(parts[0], sep);
    } else {
      SplitJoin(parts[1..], sep);
      SplitAround(parts[0], Join(parts[1..], sep), sep);
      assert [parts[0]] + parts[1..] == parts;
    }
  }

  /** A string without the separator splits into itself. */
  lemma {:induction false} SplitNoSep(s: string, sep: char)
    requires sep !in s
    ensures Split(s, sep) == [s]
  {
    if s != [] {
      SplitNoSep(s[1..], sep);
      assert [s[0]] + s[1..] == s;
    }
  }

  /** Splitting `a + [sep] + b`, where `a` has no separator, yields `a` followed by
      the pieces of `b`. */
  lemma {:induction false} SplitAround(a: string, b: string, sep: char)
    requires sep !in a
    ensures Split(a + [sep] + b, sep) == [a] + Split(b, sep)
  {
    var s := a + [sep] + b;
    if a == [] {
      assert s[0] == sep && s[1..] == b;
    } else {
      assert s[0] == a[0] && s[0] != sep;
      assert s[1..] == a[1..] + [sep] + b;
      SplitAround(a[1..], b, sep);
      var rest := Split(s[1..], sep);
      assert rest == [a[1..]] + Split(b, sep);
      assert Split(s, sep) == [[s[0]] + rest[0]] + rest[1..];
      assert [a[0]] + a[1..] == a;
    }
  }

  /** `strings.SplitN(s, string(sep), 2)`: `[s]` when `s` has no separator, else
      the text before the first separator and everything after it. */
  function SplitFirst(s: string, sep: char): (r: seq<string>)
    ensures |r| == 1 || |r| == 2
    ensures |r| == 1 <==> sep !in s
    ensures |r| == 1 ==> r[0] == s
    ensures |r| == 2 ==> sep !in r[0] && r[0] + [sep] + r[1] == s
  {
    if s == [] then [s]
    else if s[0] == sep then ["", s[1..]]
    else
      var rest := SplitFirst(s[1..], sep);
      if |rest| == 1 then [s]
      else
        assert [s[0]] + rest[0] + [sep] + rest[1] == [s[0]] + s[1..];
        [[s[0]] + rest[0], rest[1]]
  }

  /** The first-separator split of `a + [sep] + b` is `[a, b]` when `a` has no
      separator, whatever `b` holds. */
  lemma {:induction false} SplitFirstAround(a: string, b: string, sep: char)
    requires sep !in a
    ensures SplitFirst(a + [sep] + b, sep) == [a, b]
  {
    var s := a + [sep] + b;
    if a == [] {
      assert s == [sep] + b;
      assert s[1..] == b;
    } else {
      SplitFirstAround(a[1..], b, sep);
      assert s[1..] == a[1..] + [sep] + b;
      assert [a[0]] + a[1..] == a;
    }
  }

  /** `strings.Replace(s, string(from), string(to), -1)`: every `from` becomes `to`,
      everything else stays where it was. */
  function ReplaceAll(s: string, from: char, to: char): (r: string)
    ensures |r| == |s|
    ensures forall i :: 0 <= i < |s| ==> r[i] == (if s[i] == from then to else s[i])
    ensures from != to ==> from !in r
  {
    if s == [] then [] else [if s[0] == from then to else s[0]] + ReplaceAll(s[1..], from, to)
  }

  /** Go's `unicode.IsSpace`: the ASCII blanks, NEL, NBSP and the Unicode space
      separators. */
  predicate IsSpace(c: char)
  {
    c == ' ' || c == '\t' || c == '\n' || c == '\U{000B}' || c == '\U{000C}' || c == '\r'
    || c == '\U{0085}' || c == '\U{00A0}' || c == '\U{1680}'
    || ('\U{2000}' <= c <= '\U{200A}') || c == '\U{2028}' || c == '\U{2029}'
    || c == '\U{202F}' || c == '\U{205F}' || c == '\U{3000}'
  }

  /** The text up to (not including) the first space. */
  function Word(s: string): (w: string)
    ensures w <= s
    ensures forall i :: 0 <= i < |w| ==> !IsSpace(w[i])
    ensures |w| < |s| ==> IsSpace(s[|w|])
  {
    if s == [] || IsSpace(s[0]) then [] else [s[0]] + Word(s[1..])
  }

  /** `strings.Fields(s)`: the maximal runs of non-space characters, in order. */
  function Fields(s: string): (r: seq<string>)
    ensures forall i :: 0 <= i < |r| ==> r[i] != [] && forall j :: 0 <= j < |r[i]| ==> !IsSpace(r[i][j])
    decreases |s|
  {
    if s == [] then []
    else if IsSpace(s[0]) then Fields(s[1..])
    else
      var w := Word(s);
      [w] + Fields(s[|w|..])
  }

  /** A word (non-empty, no spaces) followed by a space and more text is the
      first field, and the remaining fields are those of the text. */
  lemma {:induction false} FieldsCons(w: string, rest: string)
    requires w != [] && forall j :: 0 <= j < |w| ==> !IsSpace(w[j])
    ensures Fields(w + " " + rest) == [w] + Fields(rest)
  {
    var s := w + " " + rest;
    WordOf(w, " " + rest);
    assert s == w + (" " + rest);
    assert s != [] && s[0] == w[0] && !IsSpace(s[0]);
    assert Word(s) == w;
    assert Fields(s) == [w] + Fields(s[|w|..]);
    assert s[|w|..] == " " + rest;
    assert (" " + rest)[1..] == rest;
    assert Fields(" " + rest) == Fields(rest);
  }

  /** The word of `w + t` is `w` when `w` has no spaces and `t` starts with one. */
  lemma {:induction false} WordOf(w: string, t: string)
    requires forall j :: 0 <= j < |w| ==> !IsSpace(w[j])
    requires t != [] && IsSpace(t[0])
    ensures Word(w + t) == w
  {
    if w != [] {
      WordOf(w[1..], t);
      assert (w + t)[1..] == w[1..] + t;
      assert [w[0]] + w[1..] == w;
    } else {
      assert w + t == t;
    }
  }

  /** A field of `Fields`: non-empty and free of white space. */
  predicate IsWord(w: string)
  {
    w != [] && forall j :: 0 <= j < |w| ==> !IsSpace(w[j])
  }

  /** Words joined by single spaces are split back into the same words. */
  lemma {:induction false} FieldsJoin(ws: seq<string>)
    requires forall i :: 0 <= i < |ws| ==> IsWord(ws[i])
    ensures Fields(Join(ws, ' ')) == ws
  {
    if |ws| == 1 {
      var w := ws[0];
      assert Word(w) == w by { WordAll(w); }
      assert w[|w|..] == [];
    } else if |ws| > 1 {
      FieldsJoin(ws[1..]);
      FieldsCons(ws[0], Join(ws[1..], ' '));
      assert ws[0] + [' '] + Join(ws[1..], ' ') == ws[0] + " " + Join(ws[1..], ' ');
      assert [ws[0]] + ws[1..] == ws;
    }
  }

  /** A run of white space, possibly empty. */
  predicate IsBlank(s: string)
  {
    forall j :: 0 <= j < |s| ==> IsSpace(s[j])
  }

  /** Leading white space of any length adds no field. */
  lemma {:induction false} FieldsBlank(pad: string, rest: string)
    requires IsBlank(pad)
    ensures Fields(pad + rest) == Fields(rest)
  {
    if pad != [] {
      var s := pad + rest;
      assert s[0] == pad[0] && IsSpace(pad[0]);
      assert s[1..] == pad[1..] + rest;
      assert Fields(s) == Fields(s[1..]);
      FieldsBlank(pad[1..], rest);
    } else {
      assert pad + rest == rest;
    }
  }

  /** A word followed by a non-empty run of white space is the first field,
      whatever the run's length, and the remaining fields are those of the
      text after the run. */
  lemma FieldsWord(w: string, pad: string, rest: string)
    requires IsWord(w) && IsBlank(pad) && pad != []
    ensures Fields(w + pad + rest) == [w] + Fields(rest)
  {
    var s := w + (pad + rest);
    WordOf(w, pad + rest);
    assert s[0] == w[0];
    assert s[|w|..] == pad + rest;
    FieldsBlank(pad, rest);
    assert w + pad + rest == s;
  }

  /** A word followed only by white space is the only field. */
  lemma FieldsLast(w: string, pad: string)
    requires IsWord(w) && IsBlank(pad)
    ensures Fields(w + pad) == [w]
  {
    if pad == [] {
      WordAll(w);
      assert w + pad == w && w[|w|..] == [];
    } else {
      FieldsWord(w, pad, []);
      assert w + pad + [] == w + pad;
    }
  }

  /** The words `ws`, each followed by its gap of white space: the layout of a
      line whose columns are padded to a width. */
  function Spread(ws: seq<string>, gaps: seq<string>): string
    requires |gaps| == |ws|
    decreases |ws|
  {
    if ws == [] then [] else ws[0] + gaps[0] + Spread(ws[1..], gaps[1..])
  }

  /** The gaps between the words are runs of white space, all non-empty except
      possibly the one after the last word. */
  predicate Gapped(ws: seq<string>, gaps: seq<string>)
  {
    && |gaps| == |ws|
    && (forall i :: 0 <= i < |ws| ==> IsWord(ws[i]) && IsBlank(gaps[i]))
    && (forall i :: 0 <= i < |ws| - 1 ==> gaps[i] != [])
  }

  /** The fields of words laid out with any white space before, between and
      after them are those words: `Fields` does not depend on the padding. */
  lemma FieldsSpread(lead: string, ws: seq<string>, gaps: seq<string>)
    requires IsBlank(lead) && Gapped(ws, gaps)
    ensures Fields(lead + Spread(ws, gaps)) == ws
  {
    FieldsBlank(lead, Spread(ws, gaps));
    FieldsSpreadWords(ws, gaps);
  }

  lemma {:induction false} FieldsSpreadWords(ws: seq<string>, gaps: seq<string>)
    requires Gapped(ws, gaps)
    ensures Fields(Spread(ws, gaps)) == ws
    decreases |ws|
  {
    if |ws| == 1 {
      FieldsLast(ws[0], gaps[0]);
      assert Spread(ws, gaps) == ws[0] + gaps[0] + [];
      assert ws[0] + gaps[0] + [] == ws[0] + gaps[0];
    } else if |ws| > 1 {
      var ws', gaps' := ws[1..], gaps[1..];
      assert Gapped(ws', gaps') by {
        forall i | 0 <= i < |ws'|
          ensures IsWord(ws'[i]) && IsBlank(gaps'[i])
        {
          assert ws'[i] == ws[i + 1] && gaps'[i] == gaps[i + 1];
        }
        forall i | 0 <= i < |ws'| - 1
          ensures gaps'[i] != []
        {
          assert gaps'[i] == gaps[i + 1];
        }
      }
      FieldsSpreadWords(ws', gaps');
      assert IsWord(ws[0]) && IsBlank(gaps[0]) && gaps[0] != [];
      FieldsWord(ws[0], gaps[0], Spread(ws', gaps'));
      assert [ws[0]] + ws' == ws;
    }
  }

  /** A string without spaces is a single word. */
  lemma {:induction false} WordAll(w: string)
    requires forall j :: 0 <= j < |w| ==> !IsSpace(w[j])
    ensures Word(w) == w
  {
    if w != [] {
      WordAll(w[1..]);
      assert [w[0]] + w[1..] == w;
    }
  }
}
