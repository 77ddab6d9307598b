/**
 * The fingerprint of a feed entry (`item_id` in monitor.py): a digest of the
 * normalised title and the normalised link joined by `|`. The SHA-256 digest
 * itself is not modelled; it is the parameter `digest`, an arbitrary
 * function, so that every property below holds whatever hash is plugged in.
 */
module Fingerprint {
  import opened Text

  /** The string that is hashed: `normalize_text(title) + "|" + normalize_text(link)`. */
  function JoinKey(title: string, link: string): string {
    Normalize(title) + "|" + Normalize(link)
  }

  /** `item_id(title, link)`. */
  function ItemId(title: string, link: string, digest: string -> string): string {
    digest(JoinKey(title, link))
  }

  /** Entries whose titles and links agree after normalisation share a fingerprint. */
  lemma SameNormalFormSameId(t1: string, l1: string, t2: string, l2: string, digest: string -> string)
    requires Normalize(t1) == Normalize(t2) && Normalize(l1) == Normalize(l2)
    ensures ItemId(t1, l1, digest) == ItemId(t2, l2, digest)
  {
  }

  /** Case and whitespace variants share a fingerprint: an entry has the same id as
      its own normalised title and link. */
  lemma IdIgnoresCaseAndSpacing(title: string, link: string, digest: string -> string)
    ensures ItemId(title, link, digest) == ItemId(Normalize(title), Normalize(link), digest)
  {
    NormalizeIdempotent(title);
    NormalizeIdempotent(link);
  }

  /** In `a + "|" + b == c + "|" + d`, the separator after `a` falls inside `d` when `d` is longer than `b`. */
  lemma BarPosition(a: string, b: string, c: string, d: string)
    requires a + "|" + b == c + "|" + d
    ensures |b| < |d| ==> d[|d| - |b| - 1] == '|'
  {
    var k := a + "|" + b;
    var n := |k|;
    if |b| < |d| {
      assert k[n - |b| - 1] == '|';
      assert k[n - |b| - 1] == (c + "|" + d)[n - |b| - 1];
    }
  }

  /** Splitting a joined key at its last `|` recovers both parts when the right part has no `|`. */
  lemma SplitAtLastBar(a: string, b: string, c: string, d: string)
    requires '|' !in b && '|' !in d
    requires a + "|" + b == c + "|" + d
    ensures a == c && b == d
  {
    BarPosition(a, b, c, d);
    BarPosition(c, d, a, b);
    var k := a + "|" + b;
    var n := |k|;
    assert b == k[n - |b|..];
    assert d == (c + "|" + d)[n - |d|..];
    assert a == k[..|a|];
    assert c == (c + "|" + d)[..|c|];
  }

  /** When neither normalised link contains `|`, the joined key tells the two fields
      apart: equal keys mean equal normalised titles and equal normalised links. */
  lemma JoinKeyInjective(t1: string, l1: string, t2: string, l2: string)
    requires '|' !in Normalize(l1) && '|' !in Normalize(l2)
    ensures JoinKey(t1, l1) == JoinKey(t2, l2)
            <==> Normalize(t1) == Normalize(t2) && Normalize(l1) == Normalize(l2)
  {
    if JoinKey(t1, l1) == JoinKey(t2, l2) {
      SplitAtLastBar(Normalize(t1), Normalize(l1), Normalize(t2), Normalize(l2));
    }
  }

  /** A string with no whitespace and no upper-case letter. */
  predicate PlainWord(t: string) {
    forall i :: 0 <= i < |t| ==> !IsSpace(t[i]) && !IsUpper(t[i])
  }

  lemma PlainJoin(a: string, b: string)
    requires PlainWord(a) && PlainWord(b)
    ensures PlainWord(a + "|" + b)
  {
    var ab := a + "|" + b;
    forall i | 0 <= i < |ab|
      ensures !IsSpace(ab[i]) && !IsUpper(ab[i])
    {
      if i < |a| {
        assert ab[i] == a[i];
      } else if i > |a| {
        assert ab[i] == b[i - |a| - 1];
      }
    }
  }

  /** The separator alone does not make the key injective: a `|` inside a title or
      link lets two different (title, link) pairs join to the same string, such as
      ("a|b", "c") and ("a", "b|c"), so they share a fingerprint whatever the digest. */
  lemma JoinKeyAmbiguous(x: string, y: string, z: string)
    requires PlainWord(x) && PlainWord(y) && PlainWord(z)
    ensures Normalize(x + "|" + y) != Normalize(x)
    ensures JoinKey(x + "|" + y, z) == JoinKey(x, y + "|" + z)
  {
    var xy, yz := x + "|" + y, y + "|" + z;
    PlainJoin(x, y);
    PlainJoin(y, z);
    NormalWord(xy);
    NormalWord(x);
    NormalWord(z);
    NormalWord(yz);
    assert xy + "|" + z == x + "|" + yz;
  }
}
