/** The handful of Go `strings`/`unicode` primitives the similarity engine is
    built from: rune classes, lower-casing, `strings.Fields`, `strings.Join`,
    `strings.TrimSpace` and the UTF-8 byte length that `len(string)` reports.
    Strings are sequences of Unicode scalar values (Dafny `char`). */
module Text {

  /** `unicode.IsSpace`: the Latin-1 white space runes and the other runes
      with the Unicode White_Space property. */
  predicate IsSpace(c: char) {
    || c == ' '
    || '\t' <= c <= '\r'
    || c == '\U{0085}' || c == '\U{00A0}' || c == '\U{1680}'
    || '\U{2000}' <= c <= '\U{200A}'
    || c == '\U{2028}' || c == '\U{2029}' || c == '\U{202F}'
    || c == '\U{205F}' || c == '\U{3000}'
  }

  /** The capitals whose lower-case form is one of the accented letters the
      normalizer keeps: Á É Í Ó Ú Ñ Ü. Each lies 0x20 below its lower-case form. */
  predicate IsAccentedCapital(c: char) {
    c in {'\U{00C1}', '\U{00C9}', '\U{00CD}', '\U{00D3}', '\U{00DA}', '\U{00D1}', '\U{00DC}'}
  }

  /** `unicode.ToLower` restricted to the runes that can matter to the engine:
      ASCII capitals, the seven accented capitals, and the two non-ASCII runes
      whose lower-case form is ASCII (dotted capital I and the Kelvin sign).
      Every other rune is left as it is. */
  function Lower(c: char): (r: char)
    ensures !('A' <= r <= 'Z') && !IsAccentedCapital(r)
    ensures 'A' <= c <= 'Z' || IsAccentedCapital(c) ==> r as int == c as int + 0x20
    ensures IsSpace(c) <==> IsSpace(r)
    ensures r != c ==> 'A' <= c <= 'Z' || IsAccentedCapital(c) || c == '\U{0130}' || c == '\U{212A}'
  {
    if 'A' <= c <= 'Z' || IsAccentedCapital(c) then (c as int + 32) as char
    else if c == '\U{0130}' then 'i'
    else if c == '\U{212A}' then 'k'
    else c
  }

  /** `strings.ToLower`: lower-cases rune by rune. */
  function LowerString(s: string): (r: string)
    ensures |r| == |s|
    ensures forall i :: 0 <= i < |s| ==> r[i] == Lower(s[i])
  {
    seq(|s|, i requires 0 <= i < |s| => Lower(s[i]))
  }

  /** A field of `strings.Fields`: non-empty and free of white space. */
  predicate IsWord(w: string) {
    |w| > 0 && forall i :: 0 <= i < |w| ==> !IsSpace(w[i])
  }

  /** Length of the white-space-free prefix of `s`. */
  function WordLength(s: string): (n: nat)
    ensures n <= |s|
    ensures forall i :: 0 <= i < n ==> !IsSpace(s[i])
    ensures n < |s| ==> IsSpace(s[n])
  {
    if |s| == 0 || IsSpace(s[0]) then 0 else 1 + WordLength(s[1..])
  }

  /** `strings.Fields`: the maximal runs of non-space runes, in order. */
  function Fields(s: string): (r: seq<string>)
    ensures forall w :: w in r ==> IsWord(w)
    ensures forall w :: w in r ==> forall c :: c in w ==> c in s
    decreases |s|
  {
    if |s| == 0 then []
    else if IsSpace(s[0]) then Fields(s[1..])
    else
      var n := WordLength(s);
      [s[..n]] + Fields(s[n..])
  }

  /** Length of the white-space prefix of `s`. */
  function SpaceRun(s: string): (n: nat)
    ensures n <= |s|
    ensures forall i :: 0 <= i < n ==> IsSpace(s[i])
    ensures n < |s| ==> !IsSpace(s[n])
  {
    if |s| == 0 || !IsSpace(s[0]) then 0 else 1 + SpaceRun(s[1..])
  }

  /** `ws` are the maximal runs of non-space runes of `s`, in order: `s` is
      white space, `ws[0]`, then either its end or white space followed by
      the rest split the same way. */
  predicate SplitsInto(s: string, ws: seq<string>)
    decreases |ws|
  {
    var t := s[SpaceRun(s)..];
    if |ws| == 0 then |t| == 0
    else
      var w := ws[0];
      && IsWord(w) && |w| <= |t| && t[..|w|] == w
      && (|w| == |t| || IsSpace(t[|w|]))
      && SplitsInto(t[|w|..], ws[1..])
  }

  /** The runes of `s` that are not white space, in order. */
  function NonSpace(s: string): string {
    if |s| == 0 then ""
    else (if IsSpace(s[0]) then "" else [s[0]]) + NonSpace(s[1..])
  }

  /** The strings of `ws` written one after another. */
  function Concat(ws: seq<string>): string {
    if |ws| == 0 then "" else ws[0] + Concat(ws[1..])
  }

  /** `strings.Join`. */
  function Join(ws: seq<string>, sep: string): string {
    if |ws| == 0 then ""
    else if |ws| == 1 then ws[0]
    else ws[0] + sep + Join(ws[1..], sep)
  }

  /** `strings.TrimSpace` is `TrimRight(TrimLeft(s))`. */
  function TrimLeft(s: string): (r: string)
    ensures |r| <= |s| && r == s[|s| - |r|..]
    ensures forall i :: 0 <= i < |s| - |r| ==> IsSpace(s[i])
    ensures |r| == 0 || !IsSpace(r[0])
    ensures forall c :: c in r ==> c in s
  {
    if |s| > 0 && IsSpace(s[0]) then
      var r := TrimLeft(s[1..]);
      assert s[1..][|s| - 1 - |r|..] == s[|s| - |r|..];
      assert forall i :: 1 <= i < |s| - |r| ==> s[i] == s[1..][i - 1];
      r
    else s
  }

  function TrimRight(s: string): (r: string)
    ensures |r| <= |s| && r == s[..|r|]
    ensures forall i :: |r| <= i < |s| ==> IsSpace(s[i])
    ensures |r| == 0 || !IsSpace(r[|r| - 1])
    ensures forall c :: c in r ==> c in s
  {
    if |s| > 0 && IsSpace(s[|s| - 1]) then
      var r := TrimRight(s[..|s| - 1]);
      assert s[..|s| - 1][..|r|] == s[..|r|];
      r
    else s
  }

  /** `strings.TrimSpace`: drops white space at both ends and nothing else. */
  function TrimSpace(s: string): (r: string)
    ensures |r| == 0 || (!IsSpace(r[0]) && !IsSpace(r[|r| - 1]))
    ensures forall c :: c in r ==> c in s
    ensures |s| == 0 || (!IsSpace(s[0]) && !IsSpace(s[|s| - 1])) ==> r == s
  {
    TrimRight(TrimLeft(s))
  }

  /** What `TrimSpace` cuts away: the leading white space, and a run of white
      space at the end; what it keeps is the slice in between. */
  lemma TrimSpaceIsSlice(s: string)
    ensures SpaceRun(s) + |TrimSpace(s)| <= |s|
    ensures TrimSpace(s) == s[SpaceRun(s)..SpaceRun(s) + |TrimSpace(s)|]
    ensures forall k :: SpaceRun(s) + |TrimSpace(s)| <= k < |s| ==> IsSpace(s[k])
  {
    var l := TrimLeft(s);
    var r := TrimRight(l);
    var n := SpaceRun(s);
    assert n + |l| == |s| && l == s[n..] by {
      TrimLeftDropsSpaceRun(s);
    }
    assert TrimSpace(s) == r;
    SliceOfSuffix(s, n, l, r);
  }

  lemma {:induction false} TrimLeftDropsSpaceRun(s: string)
    ensures |s| - |TrimLeft(s)| == SpaceRun(s)
    decreases |s|
  {
    if |s| > 0 && IsSpace(s[0]) {
      TrimLeftDropsSpaceRun(s[1..]);
    }
  }

  /** A prefix `r` of the suffix `l` of `s` from `i` on is the slice of `s`
      from `i`, and what follows `r` in `l` follows it in `s`. */
  lemma SliceOfSuffix(s: string, i: nat, l: string, r: string)
    requires i + |l| == |s| && l == s[i..]
    requires |r| <= |l| && r == l[..|r|]
    requires forall k :: |r| <= k < |l| ==> IsSpace(l[k])
    ensures i + |r| <= |s| && r == s[i..i + |r|]
    ensures forall k :: i + |r| <= k < |s| ==> IsSpace(s[k])
  {
    forall k | i + |r| <= k < |s|
      ensures IsSpace(s[k])
    {
      assert s[k] == l[k - i];
    }
  }

  /** Bytes in the UTF-8 encoding of one rune. */
  function Utf8Width(c: char): nat {
    if c as int < 0x80 then 1
    else if c as int < 0x800 then 2
    else if c as int < 0x1_0000 then 3
    else 4
  }

  /** `len(s)` of a Go string: the length of its UTF-8 encoding. */
  function Utf8Length(s: string): (n: nat)
    ensures |s| <= n <= 4 * |s|
  {
    if |s| == 0 then 0 else Utf8Width(s[0]) + Utf8Length(s[1..])
  }

  /** `WordLength` stops exactly at the end of a space-free prefix followed by a
      space or the end of the string. */
  lemma {:induction false} WordLengthOfWord(w: string, t: string)
    requires forall i :: 0 <= i < |w| ==> !IsSpace(w[i])
    requires |t| == 0 || IsSpace(t[0])
    ensures WordLength(w + t) == |w|
  {
    if |w| > 0 {
      assert (w + t)[1..] == w[1..] + t;
      WordLengthOfWord(w[1..], t);
    } else {
      assert w + t == t;
    }
  }

  /** Splitting a space-joined list of words gives the words back. */
  lemma {:induction false} FieldsOfJoin(ws: seq<string>)
    requires forall w :: w in ws ==> IsWord(w)
    ensures Fields(Join(ws, " ")) == ws
    decreases |ws|
  {
    if |ws| == 0 {
    } else if |ws| == 1 {
      assert ws[0] in ws;
      WordLengthOfWord(ws[0], "");
      assert ws[0] + "" == ws[0];
      assert ws[0][|ws[0]|..] == "";
    } else {
      var w := ws[0];
      assert w in ws;
      var rest := Join(ws[1..], " ");
      var s := w + " " + rest;
      assert s == w + (" " + rest);
      WordLengthOfWord(w, " " + rest);
      assert s[..|w|] == w;
      assert s[|w|..] == " " + rest;
      assert (" " + rest)[1..] == rest;
      FieldsOfJoin(ws[1..]);
      assert ws == [w] + ws[1..];
    }
  }

  lemma {:induction false} NonSpaceAppend(a: string, b: string)
    ensures NonSpace(a + b) == NonSpace(a) + NonSpace(b)
    decreases |a|
  {
    if |a| == 0 {
      assert a + b == b;
    } else {
      var head := if IsSpace(a[0]) then "" else [a[0]];
      assert (a + b)[0] == a[0] && (a + b)[1..] == a[1..] + b;
      assert NonSpace(a + b) == head + NonSpace(a[1..] + b);
      assert NonSpace(a) == head + NonSpace(a[1..]);
      NonSpaceAppend(a[1..], b);
    }
  }

  lemma {:induction false} NonSpaceOfSpaceFree(w: string)
    requires forall i :: 0 <= i < |w| ==> !IsSpace(w[i])
    ensures NonSpace(w) == w
    decreases |w|
  {
    if |w| > 0 {
      NonSpaceOfSpaceFree(w[1..]);
      assert w == [w[0]] + w[1..];
    }
  }

  lemma {:induction false} ConcatCons(w: string, ws: seq<string>)
    ensures Concat([w] + ws) == w + Concat(ws)
  {
    assert ([w] + ws)[1..] == ws;
  }

  /** White space in front of the first field does not change the fields. */
  lemma {:induction false} FieldsSkipSpaces(s: string, k: nat)
    requires k <= |s| && forall i :: 0 <= i < k ==> IsSpace(s[i])
    ensures Fields(s) == Fields(s[k..])
    decreases k
  {
    if k > 0 {
      assert s[1..][k - 1..] == s[k..];
      FieldsSkipSpaces(s[1..], k - 1);
    }
  }

  /** The fields are exactly the maximal runs of non-space runes of the text. */
  lemma {:induction false} FieldsAreMaximalRuns(s: string)
    ensures SplitsInto(s, Fields(s))
    decreases |s|
  {
    var k := SpaceRun(s);
    var t := s[k..];
    FieldsSkipSpaces(s, k);
    if |t| > 0 {
      var n := WordLength(t);
      var ws := Fields(t);
      assert ws == [t[..n]] + Fields(t[n..]);
      assert ws[0] in ws;
      assert ws[1..] == Fields(t[n..]);
      FieldsAreMaximalRuns(t[n..]);
    }
  }

  /** Conversely, a split of the text into maximal runs is its fields. */
  lemma {:induction false} MaximalRunsAreFields(s: string, ws: seq<string>)
    requires SplitsInto(s, ws)
    ensures ws == Fields(s)
    decreases |ws|
  {
    var k := SpaceRun(s);
    var t := s[k..];
    FieldsSkipSpaces(s, k);
    if |ws| > 0 {
      var w := ws[0];
      assert t == w + t[|w|..];
      WordLengthOfWord(w, t[|w|..]);
      MaximalRunsAreFields(t[|w|..], ws[1..]);
      assert ws == [w] + ws[1..];
    }
  }

  /** Writing the fields one after another gives the text without its white space. */
  lemma {:induction false} FieldsConcat(s: string)
    ensures Concat(Fields(s)) == NonSpace(s)
    decreases |s|
  {
    if |s| > 0 {
      if IsSpace(s[0]) {
        FieldsConcat(s[1..]);
      } else {
        var n := WordLength(s);
        assert s == s[..n] + s[n..];
        NonSpaceAppend(s[..n], s[n..]);
        NonSpaceOfSpaceFree(s[..n]);
        ConcatCons(s[..n], Fields(s[n..]));
        FieldsConcat(s[n..]);
      }
    }
  }

  lemma NonSpaceOfSpaceFirst(t: string)
    requires |t| > 0 && IsSpace(t[0])
    ensures NonSpace(t) == NonSpace(t[1..])
  {
  }

  /** A space-free word, one space, then more text. */
  lemma NonSpaceOfSpaced(w: string, rest: string)
    requires forall i :: 0 <= i < |w| ==> !IsSpace(w[i])
    ensures NonSpace(w + " " + rest) == w + NonSpace(rest)
  {
    var t := " " + rest;
    assert t[1..] == rest;
    NonSpaceOfSpaceFirst(t);
    assert w + " " + rest == w + t;
    NonSpaceAppend(w, t);
    NonSpaceOfSpaceFree(w);
  }

  /** Joining words with single spaces adds nothing but white space. */
  lemma {:induction false} NonSpaceOfJoin(ws: seq<string>)
    requires forall w :: w in ws ==> IsWord(w)
    ensures NonSpace(Join(ws, " ")) == Concat(ws)
    decreases |ws|
  {
    if |ws| == 1 {
      assert ws[0] in ws;
      NonSpaceOfSpaceFree(ws[0]);
      assert Concat(ws) == ws[0] + "";
    } else if |ws| > 1 {
      assert ws[0] in ws;
      NonSpaceOfSpaced(ws[0], Join(ws[1..], " "));
      NonSpaceOfJoin(ws[1..]);
    }
  }

  /** `strings.Join` of two non-empty lists puts one separator between them. */
  lemma {:induction false} JoinAppend(a: seq<string>, b: seq<string>, sep: string)
    requires |a| > 0 && |b| > 0
    ensures Join(a + b, sep) == Join(a, sep) + sep + Join(b, sep)
    decreases |a|
  {
    var ab := a + b;
    assert ab[0] == a[0] && ab[1..] == a[1..] + b;
    if |a| > 1 {
      JoinAppend(a[1..], b, sep);
    }
  }
}
