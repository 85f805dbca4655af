/** The normalizer: canonical lower-case text, stop-word-filtered tokens and
    k-token shingles (internal/service/normalizer.go). */
module Normalizer {
  import opened Text

  /** The lower-case accented letters the normalizer keeps: á é í ó ú ñ ü. */
  predicate IsAccentedSmall(c: char) {
    c in {'\U{00E1}', '\U{00E9}', '\U{00ED}', '\U{00F3}', '\U{00FA}', '\U{00F1}', '\U{00FC}'}
  }

  /** The runes of the class `[a-zA-Z0-9áéíóúÁÉÍÓÚñÑüÜ]`; every other rune is
      replaced by a space. */
  predicate IsKept(c: char) {
    'a' <= c <= 'z' || 'A' <= c <= 'Z' || '0' <= c <= '9' || IsAccentedSmall(c) || IsAccentedCapital(c)
  }

  /** A rune that can appear inside a normalized word: a kept rune in lower case. */
  predicate IsNormalRune(c: char) {
    'a' <= c <= 'z' || '0' <= c <= '9' || IsAccentedSmall(c)
  }

  predicate IsNormalWord(w: string) {
    |w| > 0 && forall i :: 0 <= i < |w| ==> IsNormalRune(w[i])
  }

  /** The shape of `Normalize` output: normal runes separated by single spaces,
      with no space at either end. */
  predicate IsNormalized(t: string) {
    && (forall i :: 0 <= i < |t| ==> IsNormalRune(t[i]) || t[i] == ' ')
    && (|t| == 0 || (t[0] != ' ' && t[|t| - 1] != ' '))
    && (forall i :: 0 <= i < |t| - 1 && t[i] == ' ' ==> t[i + 1] != ' ')
  }

  /** The regular-expression replacement: each rune outside the kept class
      becomes one space. */
  function Mask(s: string): (r: string)
    ensures |r| == |s|
    ensures forall i :: 0 <= i < |s| ==> r[i] == if IsKept(s[i]) then s[i] else ' '
  {
    seq(|s|, i requires 0 <= i < |s| => if IsKept(s[i]) then s[i] else ' ')
  }

  /** Lower-case, blank out every rune outside the kept class, then collapse
      white space: `strings.Join(strings.Fields(...), " ")`. */
  function Normalize(s: string): (r: string)
    ensures IsNormalized(r)
  {
    var m := Mask(LowerString(s));
    var ws := Fields(m);
    assert forall i :: 0 <= i < |m| ==> IsNormalRune(m[i]) || m[i] == ' ';
    assert forall w :: w in ws ==> IsNormalWord(w) by {
      forall w | w in ws
        ensures IsNormalWord(w)
      {
        assert IsWord(w);
        forall i | 0 <= i < |w|
          ensures IsNormalRune(w[i])
        {
          assert w[i] in w;
          assert w[i] in m;
        }
      }
    }
    JoinOfNormalWords(ws);
    Join(ws, " ")
  }

  lemma NormalRuneIsNotSpace(c: char)
    requires IsNormalRune(c)
    ensures !IsSpace(c)
  {
  }

  /** Joining normal words with single spaces yields normalized text. */
  lemma {:induction false} JoinOfNormalWords(ws: seq<string>)
    requires forall w :: w in ws ==> IsNormalWord(w)
    ensures IsNormalized(Join(ws, " "))
    ensures |ws| > 0 ==> |Join(ws, " ")| > 0
    decreases |ws|
  {
    if |ws| == 1 {
      assert ws[0] in ws;
    } else if |ws| > 1 {
      var w := ws[0];
      assert w in ws;
      var rest := Join(ws[1..], " ");
      JoinOfNormalWords(ws[1..]);
      var t := w + " " + rest;
      assert t == Join(ws, " ");
      assert |rest| > 0;
      forall i | 0 <= i < |t|
        ensures IsNormalRune(t[i]) || t[i] == ' '
      {
        if i > |w| {
          assert t[i] == rest[i - |w| - 1];
        }
      }
      assert t[|t| - 1] == rest[|rest| - 1];
      forall i | 0 <= i < |t| - 1
        ensures t[i] == ' ' ==> t[i + 1] != ' '
      {
        if i < |w| {
          assert t[i] == w[i];
        } else if i == |w| {
          assert t[i + 1] == rest[0];
        } else {
          assert t[i] == rest[i - |w| - 1] && t[i + 1] == rest[i - |w|];
        }
      }
    }
  }

  /** Normalized text is the single-space join of its own fields. */
  lemma {:induction false} JoinOfFieldsOfNormalized(t: string)
    requires IsNormalized(t)
    ensures Join(Fields(t), " ") == t
    decreases |t|
  {
    if |t| > 0 {
      NormalRuneIsNotSpace(t[0]);
      var n := WordLength(t);
      var w := t[..n];
      assert Fields(t) == [w] + Fields(t[n..]);
      if n == |t| {
        assert t[n..] == "";
        assert w == t;
      } else {
        var u := t[n + 1..];
        NormalizedRest(t, n);
        JoinOfFieldsOfNormalized(u);
        var rest := Fields(u);
        assert ([w] + rest)[1..] == rest;
        assert Join([w] + rest, " ") == w + " " + Join(rest, " ");
      }
    }
  }

  /** After the first word of normalized text come one space and more
      normalized text. */
  lemma NormalizedRest(t: string, n: nat)
    requires IsNormalized(t) && 0 < n < |t| && n == WordLength(t)
    ensures t[n] == ' ' && t == t[..n] + " " + t[n + 1..]
    ensures IsNormalized(t[n + 1..]) && |t[n + 1..]| > 0
    ensures Fields(t[n..]) == Fields(t[n + 1..]) && Fields(t[n + 1..]) != []
  {
    assert t[n] == ' ' by {
      if t[n] != ' ' { NormalRuneIsNotSpace(t[n]); }
    }
    var u := t[n + 1..];
    assert t[n..][1..] == u;
    assert |u| > 0 && u[0] == t[n + 1];
    assert IsNormalized(u) by {
      forall i | 0 <= i < |u| - 1 && u[i] == ' '
        ensures u[i + 1] != ' '
      {
        assert u[i] == t[n + 1 + i] && u[i + 1] == t[n + 2 + i];
      }
    }
    NormalRuneIsNotSpace(u[0]);
    assert t == t[..n] + " " + u;
  }

  /** Normalize leaves a string unchanged exactly when it is already normalized. */
  lemma NormalizeFixesExactlyNormalized(t: string)
    ensures Normalize(t) == t <==> IsNormalized(t)
  {
    if IsNormalized(t) {
      var m := Mask(LowerString(t));
      assert m == t;
      JoinOfFieldsOfNormalized(t);
    }
  }

  /** Normalizing twice is normalizing once. */
  lemma NormalizeIdempotent(s: string)
    ensures Normalize(Normalize(s)) == Normalize(s)
  {
    NormalizeFixesExactlyNormalized(Normalize(s));
  }

  /** Lower-casing leaves the runes of normalized text alone and turns every
      kept rune into one of them. */
  lemma LowerOfKept(c: char)
    ensures IsNormalRune(c) ==> Lower(c) == c
    ensures IsKept(c) ==> IsNormalRune(Lower(c))
  {
  }

  /** The kept runes of `s`, in order. */
  function KeptRunes(s: string): string {
    if |s| == 0 then "" else (if IsKept(s[0]) then [s[0]] else "") + KeptRunes(s[1..])
  }

  lemma {:induction false} KeptRunesEmpty(s: string)
    ensures KeptRunes(s) == "" <==> forall i :: 0 <= i < |s| ==> !IsKept(s[i])
    decreases |s|
  {
    if |s| > 0 {
      KeptRunesEmpty(s[1..]);
      assert forall i :: 1 <= i < |s| ==> s[i] == s[1..][i - 1];
    }
  }

  /** Masking keeps the kept runes and blanks out the rest. */
  lemma {:induction false} NonSpaceOfMask(s: string)
    ensures NonSpace(Mask(s)) == KeptRunes(s)
    decreases |s|
  {
    if |s| > 0 {
      assert Mask(s[1..]) == Mask(s)[1..];
      NonSpaceOfMask(s[1..]);
    }
  }

  /** What `Normalize` keeps: the words of the masked lower-case text, whose
      runes are, in order, the kept runes of the lower-case text; the result
      is empty exactly when no rune lower-cases to a kept one. */
  lemma {:induction false} NormalizeContents(s: string)
    ensures Fields(Normalize(s)) == Fields(Mask(LowerString(s)))
    ensures NonSpace(Normalize(s)) == KeptRunes(LowerString(s))
    ensures Normalize(s) == "" <==> forall i :: 0 <= i < |s| ==> !IsKept(Lower(s[i]))
  {
    var low := LowerString(s);
    var ws := Fields(Mask(low));
    FieldsOfJoin(ws);
    NonSpaceOfJoin(ws);
    FieldsConcat(Mask(low));
    NonSpaceOfMask(low);
    KeptRunesEmpty(low);
    if |ws| > 0 {
      assert ws[0] in ws;
      assert |Concat(ws)| > 0;
    }
  }

  /** The fixed stop-word set: English and Spanish function words. */
  const Stopwords: set<string> :=
    {"the", "and", "of", "to", "a", "in", "for", "is",
     "de", "la", "el", "y", "los", "las", "un", "una", "en"}

  /** Keeps the non-stop-words in order; each survivor keeps its multiplicity. */
  function DropStopwords(ws: seq<string>): (r: seq<string>)
    ensures |r| <= |ws|
    ensures forall w :: w in r <==> w in ws && w !in Stopwords
  {
    if |ws| == 0 then []
    else
      assert ws == [ws[0]] + ws[1..];
      (if ws[0] in Stopwords then [] else [ws[0]]) + DropStopwords(ws[1..])
  }

  /** A word that is not a stop word survives as often as it occurs. */
  lemma {:induction false} DropStopwordsKeepsCounts(ws: seq<string>, w: string)
    requires w !in Stopwords
    ensures multiset(DropStopwords(ws))[w] == multiset(ws)[w]
  {
    if |ws| > 0 {
      var head := if ws[0] in Stopwords then [] else [ws[0]];
      DropStopwordsKeepsCounts(ws[1..], w);
      assert DropStopwords(ws) == head + DropStopwords(ws[1..]);
      assert multiset(ws) == multiset([ws[0]]) + multiset(ws[1..]) by {
        assert ws == [ws[0]] + ws[1..];
      }
      assert multiset(head)[w] == multiset([ws[0]])[w];
    }
  }

  /** Stop-word removal distributes over concatenation, so it never reorders. */
  lemma {:induction false} DropStopwordsAppend(x: seq<string>, y: seq<string>)
    ensures DropStopwords(x + y) == DropStopwords(x) + DropStopwords(y)
    decreases |x|
  {
    if |x| > 0 {
      var xy := x + y;
      assert xy[0] == x[0] && xy[1..] == x[1..] + y;
      DropStopwordsAppend(x[1..], y);
      if x[0] in Stopwords {
        assert DropStopwords(xy) == DropStopwords(xy[1..]);
      } else {
        assert DropStopwords(xy) == [x[0]] + DropStopwords(xy[1..]);
      }
    } else {
      assert x + y == y;
    }
  }

  /** The words of the normalized text, minus stop words. */
  function Tokenize(s: string): (r: seq<string>)
    ensures forall t :: t in r ==> IsNormalWord(t) && t !in Stopwords
    ensures forall t :: t in r <==> t in Fields(Normalize(s)) && t !in Stopwords
  {
    var n := Normalize(s);
    FieldsOfNormalizedAreNormalWords(n);
    DropStopwords(Fields(n))
  }

  /** The fields of normalized text are normal words. */
  lemma FieldsOfNormalizedAreNormalWords(t: string)
    requires IsNormalized(t)
    ensures forall w :: w in Fields(t) ==> IsNormalWord(w)
  {
    forall w | w in Fields(t)
      ensures IsNormalWord(w)
    {
      forall i | 0 <= i < |w|
        ensures IsNormalRune(w[i])
      {
        assert w[i] in w;
        assert w[i] in t;
      }
    }
  }

  /** Tokenizing stored (already normalized) text is the same as tokenizing the
      original text. */
  lemma TokenizeOfNormalized(s: string)
    ensures Tokenize(Normalize(s)) == Tokenize(s)
  {
    NormalizeIdempotent(s);
  }

  /** The loop of `Shingles`: windows `i`, `i+1`, ... of `k` tokens. */
  function Windows(tokens: seq<string>, k: nat, i: nat): (r: seq<string>)
    requires 0 < k <= |tokens| && i <= |tokens| - k + 1
    ensures |r| == |tokens| - k + 1 - i
    ensures forall j :: 0 <= j < |r| ==> r[j] == Join(tokens[i + j..i + j + k], " ")
    decreases |tokens| - k + 1 - i
  {
    if i > |tokens| - k then []
    else [Join(tokens[i..i + k], " ")] + Windows(tokens, k, i + 1)
  }

  /** Overlapping k-token windows joined by single spaces; the tokens
      themselves when `k <= 1` or there are fewer than `k` tokens. */
  function Shingles(tokens: seq<string>, k: int): (r: seq<string>)
    ensures k <= 1 || |tokens| < k ==> r == tokens
    ensures k > 1 && |tokens| >= k ==>
      && |r| == |tokens| - k + 1
      && forall i :: 0 <= i < |r| ==> r[i] == Join(tokens[i..i + k], " ")
  {
    if k <= 1 || |tokens| < k then tokens else Windows(tokens, k, 0)
  }

  /** Splitting shingle `i` on white space gives back tokens `i .. i+k`. */
  lemma ShingleFields(tokens: seq<string>, k: int, i: int)
    requires forall t :: t in tokens ==> IsWord(t)
    requires 1 < k <= |tokens| && 0 <= i < |Shingles(tokens, k)|
    ensures Fields(Shingles(tokens, k)[i]) == tokens[i..i + k]
  {
    FieldsOfJoin(tokens[i..i + k]);
  }

  /** Consecutive shingles share k-1 tokens: the tail of one is the head of the next. */
  lemma ShinglesOverlap(tokens: seq<string>, k: int, i: int)
    requires forall t :: t in tokens ==> IsWord(t)
    requires 1 < k <= |tokens| && 0 <= i && i + 1 < |Shingles(tokens, k)|
    ensures var here, next := Fields(Shingles(tokens, k)[i]), Fields(Shingles(tokens, k)[i + 1]);
      |here| == |next| == k && here[1..] == next[..k - 1]
  {
    ShingleFields(tokens, k, i);
    ShingleFields(tokens, k, i + 1);
  }
}
