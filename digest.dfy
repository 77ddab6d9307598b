/**
 * What `build_email_html` in monitor.py does to the collected items before it
 * renders them: it ranks them by `(score, published)`, highest first, keeps at
 * most `max_items` of them, and escapes every text field with `esc` before it
 * goes into the HTML. The HTML template around the rows is not modelled.
 */
module Digest {
  import opened Feed

  /** Python's `a <= b` on `str`: lexicographic by code point, a proper prefix first. */
  predicate StrLe(a: string, b: string) {
    a == [] || (b != [] && (a[0] < b[0] || (a[0] == b[0] && StrLe(a[1..], b[1..]))))
  }

  lemma {:induction false} StrLeTotal(a: string, b: string)
    ensures StrLe(a, b) || StrLe(b, a)
  {
    if a != [] && b != [] && a[0] == b[0] {
      StrLeTotal(a[1..], b[1..]);
    }
  }

  lemma {:induction false} StrLeTrans(a: string, b: string, c: string)
    requires StrLe(a, b) && StrLe(b, c)
    ensures StrLe(a, c)
  {
    if a != [] && a[0] == b[0] && b[0] == c[0] {
      StrLeTrans(a[1..], b[1..], c[1..]);
    }
  }

  /** The sort key `(x.score, x.published)` of `x` is at most that of `y`. */
  predicate KeyLe(x: Item, y: Item) {
    x.score < y.score || (x.score == y.score && StrLe(x.published, y.published))
  }

  lemma KeyLeTotal(x: Item, y: Item)
    ensures KeyLe(x, y) || KeyLe(y, x)
  {
    StrLeTotal(x.published, y.published);
  }

  lemma KeyLeTrans(x: Item, y: Item, z: Item)
    requires KeyLe(x, y) && KeyLe(y, z)
    ensures KeyLe(x, z)
  {
    if x.score == y.score == z.score {
      StrLeTrans(x.published, y.published, z.published);
    }
  }

  /** Highest key first: no item has a smaller key than one after it. */
  predicate SortedDesc(s: seq<Item>) {
    forall i, j :: 0 <= i < j < |s| ==> KeyLe(s[j], s[i])
  }

  /** Inserts `x` into the descending `t` ahead of every item whose key is not larger,
      so that among equal keys the earlier item comes first. */
  function InsertDesc(x: Item, t: seq<Item>): seq<Item> {
    if t == [] then [x]
    else if KeyLe(t[0], x) then [x] + t
    else [t[0]] + InsertDesc(x, t[1..])
  }

  /** `sorted(items, key=lambda x: (x.score, x.published), reverse=True)`. */
  function SortDesc(items: seq<Item>): seq<Item> {
    if items == [] then [] else InsertDesc(items[0], SortDesc(items[1..]))
  }

  /** Inserting keeps every item and adds `x` once. */
  lemma {:induction false} InsertDescPerm(x: Item, t: seq<Item>)
    ensures multiset(InsertDesc(x, t)) == multiset(t) + multiset{x}
    decreases |t|
  {
    if t != [] {
      assert t == [t[0]] + t[1..];
      if !KeyLe(t[0], x) {
        InsertDescPerm(x, t[1..]);
      }
    }
  }

  /** An upper bound on `x` and on every item of `t` bounds every item of the insertion. */
  lemma {:induction false} InsertDescBelow(x: Item, t: seq<Item>, top: Item)
    requires KeyLe(x, top)
    requires forall k :: 0 <= k < |t| ==> KeyLe(t[k], top)
    ensures forall k :: 0 <= k < |InsertDesc(x, t)| ==> KeyLe(InsertDesc(x, t)[k], top)
    decreases |t|
  {
    if t != [] && !KeyLe(t[0], x) {
      assert forall k :: 0 <= k < |t[1..]| ==> t[1..][k] == t[k + 1];
      InsertDescBelow(x, t[1..], top);
    }
  }

  lemma {:induction false} InsertDescSorted(x: Item, t: seq<Item>)
    requires SortedDesc(t)
    ensures SortedDesc(InsertDesc(x, t))
    decreases |t|
  {
    if t == [] {
    } else if KeyLe(t[0], x) {
      var r := [x] + t;
      forall i, j | 0 <= i < j < |r|
        ensures KeyLe(r[j], r[i])
      {
        if i == 0 && j > 1 {
          KeyLeTrans(t[j - 1], t[0], x);
        }
      }
    } else {
      KeyLeTotal(t[0], x);
      var tail := t[1..];
      assert SortedDesc(tail) by {
        assert forall k :: 0 <= k < |tail| ==> tail[k] == t[k + 1];
      }
      assert forall k :: 0 <= k < |tail| ==> KeyLe(tail[k], t[0]) by {
        assert forall k :: 0 <= k < |tail| ==> tail[k] == t[k + 1];
      }
      InsertDescSorted(x, tail);
      InsertDescBelow(x, tail, t[0]);
      var rest := InsertDesc(x, tail);
      var r := [t[0]] + rest;
      forall i, j | 0 <= i < j < |r|
        ensures KeyLe(r[j], r[i])
      {
        assert r[j] == rest[j - 1];
        if i > 0 {
          assert r[i] == rest[i - 1];
        }
      }
    }
  }

  /** The sort orders highest key first and keeps every item exactly as often as it occurs. */
  lemma {:induction false} SortDescSpec(items: seq<Item>)
    ensures SortedDesc(SortDesc(items))
    ensures multiset(SortDesc(items)) == multiset(items)
  {
    if items != [] {
      SortDescSpec(items[1..]);
      InsertDescSorted(items[0], SortDesc(items[1..]));
      InsertDescPerm(items[0], SortDesc(items[1..]));
      assert items == [items[0]] + items[1..];
    }
  }

  /** How many items Python's `s[:n]` keeps from a list of length `len`. */
  function SliceLength(len: nat, n: int): (k: nat)
    ensures k <= len
  {
    if n >= 0 then (if n < len then n else len)
    else if len + n > 0 then len + n else 0
  }

  /** Python's `s[:n]`: a negative `n` counts from the end. */
  function PySliceTo<T>(s: seq<T>, n: int): seq<T> {
    s[..SliceLength(|s|, n)]
  }

  /** `items_sorted`: the items ranked by `(score, published)` and cut to `max_items`. */
  function Rank(items: seq<Item>, maxItems: int): seq<Item> {
    PySliceTo(SortDesc(items), maxItems)
  }

  /** In a descending sequence, nothing from position `k` on ranks above what comes before `k`. */
  lemma SortedSplit(s: seq<Item>, k: nat)
    requires SortedDesc(s) && k <= |s|
    ensures forall y, i :: y in multiset(s[k..]) && 0 <= i < k ==> KeyLe(y, s[i])
  {
    forall y, i | y in multiset(s[k..]) && 0 <= i < k
      ensures KeyLe(y, s[i])
    {
      var m :| 0 <= m < |s[k..]| && s[k..][m] == y;
      assert s[k + m] == y;
    }
  }

  /** The items a cut at `k` leaves out, as a multiset. */
  lemma CutRemainder(s: seq<Item>, k: nat)
    requires k <= |s|
    ensures multiset(s) - multiset(s[..k]) == multiset(s[k..])
    ensures multiset(s[..k]) <= multiset(s)
  {
    assert s == s[..k] + s[k..];
  }

  /** The digest holds `max_items` items (fewer if there are fewer, and Python's
      counting from the end for a negative limit), highest key first, taken from the
      collected items; none of the items left out ranks above one that is kept. */
  lemma RankSpec(items: seq<Item>, maxItems: int)
    ensures 0 <= maxItems ==> |Rank(items, maxItems)| == if maxItems < |items| then maxItems else |items|
    ensures maxItems < 0 ==> |Rank(items, maxItems)| == if |items| + maxItems > 0 then |items| + maxItems else 0
    ensures SortedDesc(Rank(items, maxItems))
    ensures multiset(Rank(items, maxItems)) <= multiset(items)
    ensures forall y, i :: y in multiset(items) - multiset(Rank(items, maxItems)) && 0 <= i < |Rank(items, maxItems)|
                           ==> KeyLe(y, Rank(items, maxItems)[i])
  {
    var sorted := SortDesc(items);
    SortDescSpec(items);
    assert |sorted| == |items| by {
      assert |multiset(sorted)| == |multiset(items)|;
    }
    var k := SliceLength(|items|, maxItems);
    CutRemainder(sorted, k);
    SortedSplit(sorted, k);
  }

  /** `str.replace(c, rep)` for a one-character pattern. */
  function ReplaceChar(s: string, c: char, rep: string): string {
    if s == [] then [] else (if s[0] == c then rep else [s[0]]) + ReplaceChar(s[1..], c, rep)
  }

  /** `esc(s)`: `&`, then `<`, then `>` replaced by their HTML entities. */
  function Esc(s: string): string {
    ReplaceChar(ReplaceChar(ReplaceChar(s, '&', "&amp;"), '<', "&lt;"), '>', "&gt;")
  }

  lemma {:induction false} ReplaceCharAppend(a: string, b: string, c: char, rep: string)
    ensures ReplaceChar(a + b, c, rep) == ReplaceChar(a, c, rep) + ReplaceChar(b, c, rep)
  {
    if a == [] {
      assert a + b == b;
    } else {
      assert (a + b)[1..] == a[1..] + b;
      ReplaceCharAppend(a[1..], b, c, rep);
    }
  }

  lemma {:induction false} ReplaceCharAbsent(s: string, c: char, rep: string, d: char)
    requires d !in rep && (d == c || d !in s)
    ensures d !in ReplaceChar(s, c, rep)
  {
    if s != [] {
      ReplaceCharAbsent(s[1..], c, rep, d);
    }
  }

  /** Escaped text holds no `<` and no `>`, so it cannot open or close a tag. */
  lemma EscNoAngleBrackets(s: string)
    ensures '<' !in Esc(s) && '>' !in Esc(s)
  {
    var amp := ReplaceChar(s, '&', "&amp;");
    var lt := ReplaceChar(amp, '<', "&lt;");
    ReplaceCharAbsent(amp, '<', "&lt;", '<');
    ReplaceCharAbsent(lt, '>', "&gt;", '<');
    ReplaceCharAbsent(lt, '>', "&gt;", '>');
  }

  /** What `esc` makes of one character. */
  function EscChar(c: char): string {
    if c == '&' then "&amp;" else if c == '<' then "&lt;" else if c == '>' then "&gt;" else [c]
  }

  /** Reads HTML text back: each of the three entities `esc` writes becomes its character. */
  function Unescape(s: string): string
    decreases |s|
  {
    if s == [] then []
    else if "&amp;" <= s then ['&'] + Unescape(s[5..])
    else if "&lt;" <= s then ['<'] + Unescape(s[4..])
    else if "&gt;" <= s then ['>'] + Unescape(s[4..])
    else [s[0]] + Unescape(s[1..])
  }

  lemma ReplaceCharNoop(s: string, c: char, rep: string)
    requires c !in s
    ensures ReplaceChar(s, c, rep) == s
  {
  }

  lemma ReplaceCharOne(d: char, c: char, rep: string)
    ensures ReplaceChar([d], c, rep) == if d == c then rep else [d]
  {
    assert [d][1..] == [];
  }

  /** The three passes of `esc` act character by character. */
  lemma EscCons(c: char, s: string)
    ensures Esc([c] + s) == EscChar(c) + Esc(s)
  {
    ReplaceCharAppend([c], s, '&', "&amp;");
    ReplaceCharOne(c, '&', "&amp;");
    var a1 := ReplaceChar([c], '&', "&amp;");
    var a2 := ReplaceChar(s, '&', "&amp;");
    ReplaceCharAppend(a1, a2, '<', "&lt;");
    var b1 := ReplaceChar(a1, '<', "&lt;");
    var b2 := ReplaceChar(a2, '<', "&lt;");
    ReplaceCharAppend(b1, b2, '>', "&gt;");
    if c == '&' {
      ReplaceCharNoop("&amp;", '<', "&lt;");
      ReplaceCharNoop("&amp;", '>', "&gt;");
    } else if c == '<' {
      ReplaceCharOne(c, '<', "&lt;");
      ReplaceCharNoop("&lt;", '>', "&gt;");
    } else {
      ReplaceCharOne(c, '<', "&lt;");
      ReplaceCharOne(c, '>', "&gt;");
    }
  }

  /** `esc` loses nothing: reading the escaped text back gives the original string. */
  lemma {:induction false} UnescapeEsc(s: string)
    ensures Unescape(Esc(s)) == s
  {
    if s != [] {
      EscCons(s[0], s[1..]);
      assert s == [s[0]] + s[1..];
      var e := EscChar(s[0]) + Esc(s[1..]);
      UnescapeEsc(s[1..]);
      if s[0] == '&' {
        assert e[5..] == Esc(s[1..]);
      } else if s[0] == '<' {
        assert e[1] == 'l';
        assert e[4..] == Esc(s[1..]);
      } else if s[0] == '>' {
        assert e[1] == 'g';
        assert e[4..] == Esc(s[1..]);
      } else {
        assert e[1..] == Esc(s[1..]);
      }
    } else {
      assert Esc(s) == [];
    }
  }
}
