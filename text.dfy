/**
 * Text normalisation used for both fingerprinting and keyword matching
 * (`normalize_text` in monitor.py): every run of whitespace becomes one
 * space, the ends are trimmed, and letters are lower-cased. Also the
 * substring test (`x in t`) that every keyword rule uses.
 */
module Text {

  /** The characters Python treats as whitespace in `str.isspace`, `str.strip`
      and the `\s` class of a `str` regular expression. */
  predicate IsSpace(c: char) {
    ('\t' <= c <= '\r') || ('\U{1C}' <= c <= ' ') || c == '\U{85}' || c == '\U{A0}'
    || c == '\U{1680}' || ('\U{2000}' <= c <= '\U{200A}') || c == '\U{2028}' || c == '\U{2029}'
    || c == '\U{202F}' || c == '\U{205F}' || c == '\U{3000}'
  }

  predicate IsUpper(c: char) {
    'A' <= c <= 'Z'
  }

  /** Lower-cases one character (ASCII letters only). */
  function Lower(c: char): (d: char)
    ensures !IsUpper(d)
    ensures IsSpace(d) <==> IsSpace(c)
    ensures !IsUpper(c) ==> d == c
  {
    if IsUpper(c) then (c as int + 32) as char else c
  }

  /** `str.lower()`, character by character. */
  function LowerAll(s: string): string {
    seq(|s|, i requires 0 <= i < |s| => Lower(s[i]))
  }

  /** Drops leading whitespace (the left half of `str.strip()`). */
  function TrimStart(s: string): string {
    if s != [] && IsSpace(s[0]) then TrimStart(s[1..]) else s
  }

  /** Drops trailing whitespace (the right half of `str.strip()`). */
  function TrimEnd(s: string): string {
    if s != [] && IsSpace(s[|s| - 1]) then TrimEnd(s[..|s| - 1]) else s
  }

  /** Every character of `t` is whitespace. */
  predicate AllSpace(t: string) {
    forall i :: 0 <= i < |t| ==> IsSpace(t[i])
  }

  /** `TrimStart` keeps a suffix that is empty or starts with non-whitespace, and drops
      only whitespace. */
  lemma {:induction false} TrimStartShape(s: string)
    ensures |TrimStart(s)| <= |s| && TrimStart(s) == s[|s| - |TrimStart(s)|..]
    ensures TrimStart(s) == [] || !IsSpace(TrimStart(s)[0])
    ensures AllSpace(s[..|s| - |TrimStart(s)|])
  {
    if s != [] && IsSpace(s[0]) {
      var t := s[1..];
      TrimStartShape(t);
      var k := |t| - |TrimStart(t)|;
      assert s[..k + 1] == [s[0]] + t[..k];
      assert t[k..] == s[k + 1..];
    } else {
      assert s[..0] == [];
    }
  }

  /** `TrimEnd` keeps a prefix that is empty or ends with non-whitespace, and drops only
      whitespace. */
  lemma {:induction false} TrimEndShape(s: string)
    ensures |TrimEnd(s)| <= |s| && TrimEnd(s) == s[..|TrimEnd(s)|]
    ensures TrimEnd(s) == [] || !IsSpace(TrimEnd(s)[|TrimEnd(s)| - 1])
    ensures AllSpace(s[|TrimEnd(s)|..])
  {
    if s != [] && IsSpace(s[|s| - 1]) {
      var p := s[..|s| - 1];
      TrimEndShape(p);
      var k := |TrimEnd(p)|;
      assert s[k..] == p[k..] + [s[|s| - 1]];
      assert p[..k] == s[..k];
    } else {
      assert s[|s|..] == [];
    }
  }

  /** `str.strip()`. */
  function Strip(s: string): string {
    TrimEnd(TrimStart(s))
  }

  /** `str.strip()` gives the slice of `s` that neither starts nor ends with whitespace
      and leaves out only whitespace on either side. */
  lemma StripShape(s: string)
    ensures NoEdgeSpace(Strip(s))
    ensures exists a, b :: 0 <= a <= b <= |s| && Strip(s) == s[a..b] && AllSpace(s[..a]) && AllSpace(s[b..])
  {
    var u := TrimStart(s);
    var r := TrimEnd(u);
    TrimStartShape(s);
    TrimEndShape(u);
    var a, b := |s| - |u|, |s| - |u| + |r|;
    assert r == s[a..b];
    assert s[b..] == u[|r|..];
  }

  /** What `re.sub(r"\s+", " ", s)` makes of the first character of `s`: a
      non-whitespace character stays; a whitespace character is dropped when more
      whitespace follows it and otherwise ends its run as one plain space. */
  function CollapseHead(s: string): string
    requires s != []
  {
    if !IsSpace(s[0]) then [s[0]]
    else if |s| > 1 && IsSpace(s[1]) then []
    else " "
  }

  /** `re.sub(r"\s+", " ", s)`: each maximal run of whitespace becomes one plain space. */
  function CollapseSpaces(s: string): string {
    if s == [] then [] else CollapseHead(s) + CollapseSpaces(s[1..])
  }

  /** Prepending one character keeps a string single-spaced when that character is a
      plain space followed by no whitespace, or is not whitespace at all. */
  lemma SingleSpacedCons(c: char, t: string)
    requires SingleSpaced(t)
    requires IsSpace(c) ==> c == ' ' && (t == [] || !IsSpace(t[0]))
    ensures SingleSpaced([c] + t)
  {
    var r := [c] + t;
    forall i | 0 <= i < |r| && IsSpace(r[i])
      ensures r[i] == ' ' && (i + 1 < |r| ==> !IsSpace(r[i + 1]))
    {
      if i > 0 {
        assert r[i] == t[i - 1];
        if i + 1 < |r| {
          assert r[i + 1] == t[i];
        }
      }
    }
  }

  /** The result of collapsing has each whitespace run replaced by one plain space: no
      whitespace character other than `' '`, none next to another; it is empty only for
      empty input, never longer, and starts with whitespace iff the input does. */
  lemma {:induction false} CollapseShape(s: string)
    ensures |CollapseSpaces(s)| <= |s|
    ensures CollapseSpaces(s) == [] <==> s == []
    ensures CollapseSpaces(s) != [] ==> (IsSpace(CollapseSpaces(s)[0]) <==> IsSpace(s[0]))
    ensures SingleSpaced(CollapseSpaces(s))
  {
    if s != [] {
      var rest := CollapseSpaces(s[1..]);
      CollapseShape(s[1..]);
      if CollapseHead(s) == [] {
        assert CollapseSpaces(s) == rest;
      } else {
        SingleSpacedCons(CollapseHead(s)[0], rest);
        assert CollapseSpaces(s) == [CollapseHead(s)[0]] + rest;
      }
    }
  }

  /** A string that ends in a non-whitespace character closes every whitespace run it
      holds, so it collapses independently of what follows. */
  lemma {:induction false} CollapseSplit(a: string, r: string)
    requires a != [] && !IsSpace(a[|a| - 1])
    ensures CollapseSpaces(a + r) == CollapseSpaces(a) + CollapseSpaces(r)
  {
    var ar := a + r;
    if |a| == 1 {
      assert ar[1..] == r && a[1..] == [];
      assert CollapseHead(ar) == CollapseHead(a) == [a[0]];
    } else {
      assert ar[1..] == a[1..] + r;
      assert ar[1] == a[1];
      assert CollapseHead(ar) == CollapseHead(a);
      CollapseSplit(a[1..], r);
    }
  }

  /** A whitespace run in front of a non-whitespace character collapses to one space. */
  lemma {:induction false} CollapseRun(w: string, b: string)
    requires w != [] && forall i :: 0 <= i < |w| ==> IsSpace(w[i])
    requires b != [] && !IsSpace(b[0])
    ensures CollapseSpaces(w + b) == " " + CollapseSpaces(b)
  {
    var wb := w + b;
    assert wb[1..] == w[1..] + b;
    if |w| == 1 {
      assert wb[1] == b[0] && w[1..] + b == b;
    } else {
      assert wb[1] == w[1];
      CollapseRun(w[1..], b);
    }
  }

  /** `re.sub(r"\s+", " ", ...)` on a whitespace run between two non-whitespace
      characters: the run becomes exactly one space, and each side collapses on its own. */
  lemma CollapseSeparator(a: string, w: string, b: string)
    requires a != [] && !IsSpace(a[|a| - 1])
    requires w != [] && forall i :: 0 <= i < |w| ==> IsSpace(w[i])
    requires b != [] && !IsSpace(b[0])
    ensures CollapseSpaces(a + w + b) == CollapseSpaces(a) + " " + CollapseSpaces(b)
  {
    assert a + w + b == a + (w + b);
    CollapseSplit(a, w + b);
    CollapseRun(w, b);
  }

  /** `normalize_text`: collapse whitespace runs, trim, lower-case. */
  function Normalize(s: string): string {
    LowerAll(Strip(CollapseSpaces(s)))
  }

  /** Every whitespace character is a plain space and no two whitespace characters are adjacent. */
  predicate SingleSpaced(t: string) {
    forall i :: 0 <= i < |t| && IsSpace(t[i]) ==> t[i] == ' ' && (i + 1 < |t| ==> !IsSpace(t[i + 1]))
  }

  predicate NoEdgeSpace(t: string) {
    t == [] || (!IsSpace(t[0]) && !IsSpace(t[|t| - 1]))
  }

  predicate NoUpper(t: string) {
    forall i :: 0 <= i < |t| ==> !IsUpper(t[i])
  }

  /** What every output of `normalize_text` looks like. */
  predicate IsNormal(t: string) {
    NoEdgeSpace(t) && SingleSpaced(t) && NoUpper(t)
  }

  /** The non-whitespace characters of `s`, in order. */
  function NonSpace(s: string): string {
    if s == [] then [] else (if IsSpace(s[0]) then [] else [s[0]]) + NonSpace(s[1..])
  }

  lemma {:induction false} NonSpaceAppend(a: string, b: string)
    ensures NonSpace(a + b) == NonSpace(a) + NonSpace(b)
  {
    if a == [] {
      assert a + b == b;
    } else {
      assert (a + b)[1..] == a[1..] + b;
      NonSpaceAppend(a[1..], b);
    }
  }

  lemma {:induction false} NonSpaceOfSpaces(s: string)
    requires AllSpace(s)
    ensures NonSpace(s) == []
  {
    if s != [] {
      assert forall i :: 0 <= i < |s| - 1 ==> s[1..][i] == s[i + 1];
      NonSpaceOfSpaces(s[1..]);
    }
  }

  lemma {:induction false} NonSpaceLower(s: string)
    ensures NonSpace(LowerAll(s)) == LowerAll(NonSpace(s))
  {
    if s != [] {
      assert LowerAll(s)[1..] == LowerAll(s[1..]);
      NonSpaceLower(s[1..]);
      if IsSpace(s[0]) {
      } else {
        assert [Lower(s[0])] + LowerAll(NonSpace(s[1..])) == LowerAll([s[0]] + NonSpace(s[1..]));
      }
    }
  }

  /** Trimming only removes whitespace. */
  lemma StripKeepsContent(s: string)
    ensures NonSpace(Strip(s)) == NonSpace(s)
  {
    StripShape(s);
    var a, b :| 0 <= a <= b <= |s| && Strip(s) == s[a..b] && AllSpace(s[..a]) && AllSpace(s[b..]);
    assert s == s[..a] + s[a..b] + s[b..];
    NonSpaceAppend(s[..a] + s[a..b], s[b..]);
    NonSpaceAppend(s[..a], s[a..b]);
    NonSpaceOfSpaces(s[..a]);
    NonSpaceOfSpaces(s[b..]);
  }

  /** Collapsing whitespace runs keeps every other character, in order. */
  lemma {:induction false} CollapseKeepsContent(s: string)
    ensures NonSpace(CollapseSpaces(s)) == NonSpace(s)
  {
    if s != [] {
      CollapseKeepsContent(s[1..]);
      NonSpaceAppend(CollapseHead(s), CollapseSpaces(s[1..]));
    }
  }

  /** Normalisation changes only whitespace and letter case. */
  lemma NormalizeKeepsContent(s: string)
    ensures NonSpace(Normalize(s)) == LowerAll(NonSpace(s))
  {
    CollapseKeepsContent(s);
    StripKeepsContent(CollapseSpaces(s));
    NonSpaceLower(Strip(CollapseSpaces(s)));
  }

  /** A slice of a single-spaced string is single-spaced. */
  lemma SingleSpacedSlice(c: string, a: nat, b: nat)
    requires a <= b <= |c| && SingleSpaced(c)
    ensures SingleSpaced(c[a..b])
  {
    var t := c[a..b];
    forall i | 0 <= i < |t| && IsSpace(t[i])
      ensures t[i] == ' ' && (i + 1 < |t| ==> !IsSpace(t[i + 1]))
    {
      assert t[i] == c[a + i];
      if i + 1 < |t| {
        assert t[i + 1] == c[a + i + 1];
      }
    }
  }

  /** Lower-casing removes every upper-case letter and moves no whitespace. */
  lemma LowerAllShape(t: string)
    ensures NoUpper(LowerAll(t))
    ensures NoEdgeSpace(t) ==> NoEdgeSpace(LowerAll(t))
    ensures SingleSpaced(t) ==> SingleSpaced(LowerAll(t))
  {
  }

  /** No leading or trailing whitespace, no two whitespace characters in a row
      (and every whitespace character a plain space), no upper-case letter. */
  lemma NormalizeIsNormal(s: string)
    ensures IsNormal(Normalize(s))
  {
    var c := CollapseSpaces(s);
    CollapseShape(s);
    StripShape(c);
    var t := Strip(c);
    var a, b :| 0 <= a <= b <= |c| && t == c[a..b];
    SingleSpacedSlice(c, a, b);
    LowerAllShape(t);
  }

  lemma SingleSpacedTail(t: string)
    requires t != [] && SingleSpaced(t)
    ensures SingleSpaced(t[1..])
  {
    forall i | 0 <= i < |t| - 1 && IsSpace(t[1..][i])
      ensures t[1..][i] == ' ' && (i + 1 < |t| - 1 ==> !IsSpace(t[1..][i + 1]))
    {
      assert t[1..][i] == t[i + 1];
    }
  }

  /** A single-spaced string has no whitespace run to collapse. */
  lemma {:induction false} CollapseFixesSingleSpaced(t: string)
    requires SingleSpaced(t)
    ensures CollapseSpaces(t) == t
  {
    if t != [] {
      SingleSpacedTail(t);
      CollapseFixesSingleSpaced(t[1..]);
      assert CollapseHead(t) == [t[0]];
      assert [t[0]] + t[1..] == t;
    }
  }

  lemma NormalFixed(t: string)
    requires IsNormal(t)
    ensures Normalize(t) == t
  {
    CollapseFixesSingleSpaced(t);
    assert TrimStart(t) == t;
    assert TrimEnd(t) == t;
    assert LowerAll(t) == t;
  }

  /** A string without whitespace or upper-case letters normalises to itself. */
  lemma NormalWord(t: string)
    requires forall i :: 0 <= i < |t| ==> !IsSpace(t[i]) && !IsUpper(t[i])
    ensures Normalize(t) == t
  {
    NormalFixed(t);
  }

  /** A string whose whitespace collapses to a normal string normalises to it. */
  lemma NormalizeVia(s: string, t: string)
    requires CollapseSpaces(s) == t && IsNormal(t)
    ensures Normalize(s) == t
  {
    CollapseFixesSingleSpaced(t);
    NormalFixed(t);
  }

  /** A string with no whitespace and no upper-case letter, as a predicate. */
  predicate Word(t: string) {
    t != [] && forall i :: 0 <= i < |t| ==> !IsSpace(t[i]) && !IsUpper(t[i])
  }

  lemma WordPairNormal(x: string, y: string)
    requires Word(x) && Word(y)
    ensures IsNormal(x + " " + y)
  {
    var t := x + " " + y;
    forall i | 0 <= i < |t|
      ensures (i == |x| && t[i] == ' ') || (i != |x| && !IsSpace(t[i]) && !IsUpper(t[i]))
    {
      if i < |x| {
        assert t[i] == x[i];
      } else if i > |x| {
        assert t[i] == y[i - |x| - 1];
      }
    }
  }

  /** Two words separated by any whitespace run normalise to the words joined by one
      space, so "Hello  World" and "HelloWorld" have different normal forms. */
  lemma NormalizeTwoWords(x: string, w: string, y: string)
    requires Word(x) && Word(y)
    requires w != [] && forall i :: 0 <= i < |w| ==> IsSpace(w[i])
    ensures Normalize(x + w + y) == x + " " + y
  {
    CollapseSeparator(x, w, y);
    CollapseFixesSingleSpaced(x);
    CollapseFixesSingleSpaced(y);
    WordPairNormal(x, y);
    NormalizeVia(x + w + y, x + " " + y);
  }

  /** `normalize_text(normalize_text(s)) == normalize_text(s)`. */
  lemma NormalizeIdempotent(s: string)
    ensures Normalize(Normalize(s)) == Normalize(s)
  {
    NormalizeIsNormal(s);
    NormalFixed(Normalize(s));
  }

  /** `p` occurs in `t` starting at index `i`. */
  predicate OccursAt(t: string, p: string, i: int) {
    0 <= i && i + |p| <= |t| && t[i..i + |p|] == p
  }

  /** Python's `p in t` on strings: substring containment (the empty string is in every string). */
  predicate Contains(t: string, p: string)
    decreases |t|
  {
    p <= t || (t != [] && Contains(t[1..], p))
  }

  lemma {:induction false} ContainsFromOccurs(t: string, p: string, i: int)
    requires OccursAt(t, p, i)
    ensures Contains(t, p)
    decreases i
  {
    if i > 0 {
      assert t[1..][i - 1..i - 1 + |p|] == t[i..i + |p|];
      ContainsFromOccurs(t[1..], p, i - 1);
    } else {
      assert t[..|p|] == p;
    }
  }

  lemma {:induction false} OccursFromContains(t: string, p: string) returns (i: int)
    requires Contains(t, p)
    ensures OccursAt(t, p, i)
    decreases |t|
  {
    if p <= t {
      assert t[..|p|] == p;
      i := 0;
    } else {
      var j := OccursFromContains(t[1..], p);
      assert t[j + 1..j + 1 + |p|] == t[1..][j..j + |p|];
      i := j + 1;
    }
  }

  /** `Contains` agrees with the definition of a substring by position. */
  lemma ContainsIffOccurs(t: string, p: string)
    ensures Contains(t, p) <==> exists i :: OccursAt(t, p, i)
  {
    if Contains(t, p) {
      var i := OccursFromContains(t, p);
    }
    if i :| OccursAt(t, p, i) {
      ContainsFromOccurs(t, p, i);
    }
  }
}
