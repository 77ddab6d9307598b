/**
 * The per-source filtering loop (`fetch_rss_source` in monitor.py) and what it
 * builds from each entry. The feed download and parser are not modelled: the
 * loop receives the parsed entries. The date parser and the hash are
 * parameters. The ledger is the `SeenLedger` object that the loop queries and
 * updates entry by entry.
 */
module Feed {
  import opened Wrappers
  import opened Text
  import opened Fingerprint
  import opened Scoring
  import opened Ledger

  /** A parsed feed entry; every field may be missing. */
  datatype Entry = Entry(
    title: Option<string>,
    link: Option<string>,
    summary: Option<string>,
    description: Option<string>,
    published: Option<string>,
    updated: Option<string>,
    created: Option<string>)

  /** A configured feed: its `name` and its `tags` (a missing `tags` is the empty list). */
  datatype Source = Source(name: string, tags: seq<string>)

  /** The `Item` record handed to the digest. */
  datatype Item = Item(
    source: string,
    title: string,
    link: string,
    published: string,
    summary: string,
    tags: seq<string>,
    score: int)

  /** Everything the loop consults besides the entries and the ledger: the source, the
      keyword policy, the digest behind `item_id`, and the lenient date parser, which
      yields the ISO calendar date or `None` where it would raise. */
  datatype Env = Env(source: Source, policy: Policy, digest: string -> string, parseDate: string -> Option<string>)

  /** An entry the loop keeps, with the fingerprint it is recorded under. */
  datatype Accepted = Accepted(id: string, item: Item)

  const MaxEntries: nat := 200
  const MaxSummary: nat := 500
  const NoTitle: string := "(no title)"

  /** `e.get(key, "")`. */
  function Field(f: Option<string>): string {
    f.GetOr("")
  }

  /** `e.get("summary", "") or e.get("description", "") or ""`. */
  function RawSummary(e: Entry): string {
    if Field(e.summary) != "" then Field(e.summary) else Field(e.description)
  }

  /** The date a single field yields: none when it is missing or empty, or when the parser fails. */
  function DateFrom(f: Option<string>, parseDate: string -> Option<string>): Option<string> {
    if f.Some? && f.value != "" then parseDate(f.value) else None
  }

  /** The loop of `parse_date` over the date fields in priority order: the first field
      that parses wins; when none does, the empty string. */
  function FirstDate(fields: seq<Option<string>>, parseDate: string -> Option<string>): (r: string)
    ensures (forall i :: 0 <= i < |fields| ==> DateFrom(fields[i], parseDate).None?) ==> r == ""
    ensures forall i :: 0 <= i < |fields| && DateFrom(fields[i], parseDate).Some?
                        && (forall j :: 0 <= j < i ==> DateFrom(fields[j], parseDate).None?)
                        ==> r == DateFrom(fields[i], parseDate).value
  {
    if fields == [] then ""
    else match DateFrom(fields[0], parseDate)
      case Some(d) => d
      case None =>
        var r := FirstDate(fields[1..], parseDate);
        assert forall i :: 1 <= i < |fields| ==> fields[i] == fields[1..][i - 1];
        r
  }

  /** `parse_date(e)`: `published`, then `updated`, then `created`. */
  function ParseDate(e: Entry, parseDate: string -> Option<string>): string {
    FirstDate([e.published, e.updated, e.created], parseDate)
  }

  /** The end of a tag `<...>` opening at `s[0]`, scanning from `s[k]`: the regex
      `<[^<]+?>` needs at least one character between the brackets, takes the first
      `>` after it, and fails if a `<` comes first. */
  function TagEnd(s: string, k: nat): (r: Option<nat>)
    requires 1 <= k
    ensures r.Some? ==> k <= r.value < |s| && 2 <= r.value && s[r.value] == '>'
    ensures r.Some? ==> forall j :: k <= j < r.value ==> s[j] != '<'
    ensures r.Some? ==> forall j :: k <= j < r.value && 2 <= j ==> s[j] != '>'
    ensures r.None? ==> forall j :: k <= j < |s| && 2 <= j && s[j] == '>' ==> '<' in s[k..j]
    decreases |s| - k
  {
    if k >= |s| || s[k] == '<' then None
    else if s[k] == '>' && k >= 2 then Some(k)
    else TagEnd(s, k + 1)
  }

  /** `re.sub("<[^<]+?>", " ", s)`: every tag becomes one space, scanning left to right. */
  function StripTags(s: string): (r: string)
    ensures |r| <= |s|
    ensures (forall i :: 0 <= i < |s| ==> s[i] != '<') ==> r == s
    decreases |s|
  {
    if s == [] then []
    else if s[0] == '<' && TagEnd(s, 1).Some? then " " + StripTags(s[TagEnd(s, 1).value + 1..])
    else [s[0]] + StripTags(s[1..])
  }

  /** `re.sub("<[^<]+?>", " ", summary)[:500]`. */
  function SummaryText(summary: string): (r: string)
    ensures |r| <= MaxSummary
    ensures r <= StripTags(summary)
    ensures |StripTags(summary)| <= MaxSummary ==> r == StripTags(summary)
  {
    var plain := StripTags(summary);
    if |plain| <= MaxSummary then plain else plain[..MaxSummary]
  }

  /** `d.entries[:200]`. */
  function Cap(entries: seq<Entry>): (r: seq<Entry>)
    ensures |r| <= MaxEntries && r <= entries
    ensures |entries| <= MaxEntries ==> r == entries
  {
    if |entries| <= MaxEntries then entries else entries[..MaxEntries]
  }

  /** What one pass of the loop body makes of entry `e` before the ledger is consulted:
      nothing when the scorer rejects it, otherwise its fingerprint and its item. */
  function Candidate(env: Env, e: Entry): (c: Option<Accepted>)
    ensures var title := Strip(Field(e.title));
            c.Some? <==> Score(title + "\n" + Strip(RawSummary(e)), env.policy).keep
    ensures c.Some? ==> c.value.id == ItemId(Strip(Field(e.title)), Strip(Field(e.link)), env.digest)
    ensures var title := Strip(Field(e.title));
            var summary := Strip(RawSummary(e));
            c.Some? ==> c.value.item == Item(env.source.name, if title == "" then NoTitle else title,
                                             Strip(Field(e.link)), ParseDate(e, env.parseDate),
                                             SummaryText(summary), env.source.tags,
                                             Score(title + "\n" + summary, env.policy).score)
    ensures c.Some? ==> Baseline <= c.value.item.score <= MaxScore
                        && |c.value.item.summary| <= MaxSummary
                        && c.value.item.title != ""
  {
    var title := Strip(Field(e.title));
    var link := Strip(Field(e.link));
    var summary := Strip(RawSummary(e));
    var verdict := Score(title + "\n" + summary, env.policy);
    if !verdict.keep then None
    else
      var item := Item(env.source.name, if title == "" then NoTitle else title, link,
                       ParseDate(e, env.parseDate), SummaryText(summary), env.source.tags, verdict.score);
      Some(Accepted(ItemId(title, link, env.digest), item))
  }

  /** The entries the loop keeps, in order, when each entry is judged by `judge` (in the
      model, `Candidate`) and the ledger holds `seen` at the start: a relevant entry is
      kept unless its fingerprint is already recorded, counting the fingerprints
      recorded earlier in the same run. */
  function Run(judge: Entry -> Option<Accepted>, entries: seq<Entry>, seen: set<string>): (acc: seq<Accepted>)
    ensures |acc| <= |entries|
    ensures forall i :: 0 <= i < |acc| ==> acc[i].id !in seen
    decreases |entries|
  {
    if entries == [] then []
    else
      var c := judge(entries[0]);
      if c.Some? && c.value.id !in seen then [c.value] + Run(judge, entries[1..], seen + {c.value.id})
      else Run(judge, entries[1..], seen)
  }

  /** The judgement the loop body applies to each entry of a run over `env`. */
  function Judgement(env: Env): Entry -> Option<Accepted> {
    e => Candidate(env, e)
  }

  /** The items of `acc`, in order. */
  function Items(acc: seq<Accepted>): (r: seq<Item>)
    ensures |r| == |acc| && forall i :: 0 <= i < |acc| ==> r[i] == acc[i].item
  {
    if acc == [] then [] else Items(acc[..|acc| - 1]) + [acc[|acc| - 1].item]
  }

  /** The fingerprints of `acc`, in order. */
  function Ids(acc: seq<Accepted>): (r: seq<string>)
    ensures |r| == |acc| && forall i :: 0 <= i < |acc| ==> r[i] == acc[i].id
  {
    if acc == [] then [] else Ids(acc[..|acc| - 1]) + [acc[|acc| - 1].id]
  }

  lemma AppendAssoc<T>(a: seq<T>, b: seq<T>, c: seq<T>)
    ensures (a + b) + c == a + (b + c)
  {
  }

  /** The loop of `fetch_rss_source` over `entries`: each entry is judged (`judge`), a
      rejected one is skipped without touching the ledger, one whose fingerprint is
      already recorded is skipped, and any other has its item appended and its
      fingerprint recorded at time `now`. */
  method FilterEntries(judge: Entry -> Option<Accepted>, entries: seq<Entry>, ledger: SeenLedger, now: Timestamp)
    returns (items: seq<Item>)
    modifies ledger
    ensures var acc := Run(judge, entries, old(ledger.rows).Keys);
            items == Items(acc) && ledger.rows == MarkAll(old(ledger.rows), Ids(acc), now)
  {
    ghost var rows0 := ledger.rows;
    ghost var acc: seq<Accepted> := [];
    items := [];
    var i := 0;
    assert entries[i..] == entries;
    while i < |entries|
      invariant 0 <= i <= |entries|
      invariant items == Items(acc)
      invariant ledger.rows == MarkAll(rows0, Ids(acc), now)
      invariant acc + Run(judge, entries[i..], ledger.rows.Keys) == Run(judge, entries, rows0.Keys)
    {
      var e := entries[i];
      ghost var keys := ledger.rows.Keys;
      assert entries[i..][0] == e && entries[i..][1..] == entries[i + 1..];
      var candidate := judge(e);
      if candidate.Some? {
        var iid := candidate.value.id;
        var seen := ledger.AlreadySeen(iid);
        if !seen {
          var item := candidate.value.item;
          items := items + [item];
          ledger.MarkSeen(iid, now);
          ghost var rest := Run(judge, entries[i + 1..], keys + {iid});
          assert ledger.rows.Keys == keys + {iid};
          AppendAssoc(acc, [candidate.value], rest);
          assert (acc + [candidate.value])[..|acc|] == acc;
          acc := acc + [candidate.value];
        }
      }
      i := i + 1;
    }
    assert entries[i..] == [];
    assert acc + [] == acc;
  }

  /** `fetch_rss_source(src, cfg)` on the parsed `entries` of the source, with the
      ledger `ledger`; every row it adds is stamped `now`. Only the first 200 entries
      are examined. */
  method FetchRssSource(env: Env, entries: seq<Entry>, ledger: SeenLedger, now: Timestamp)
    returns (items: seq<Item>)
    modifies ledger
    ensures var acc := Run(Judgement(env), Cap(entries), old(ledger.rows).Keys);
            items == Items(acc) && ledger.rows == MarkAll(old(ledger.rows), Ids(acc), now)
    ensures |items| <= MaxEntries
  {
    items := FilterEntries(Judgement(env), Cap(entries), ledger, now);
  }

  /** No two accepted entries share a fingerprint. */
  predicate DistinctIds(acc: seq<Accepted>) {
    forall i, j :: 0 <= i < j < |acc| ==> acc[i].id != acc[j].id
  }

  /** No fingerprint is returned twice in one run, even when several entries share it. */
  lemma {:induction false} RunIdsDistinct(judge: Entry -> Option<Accepted>, entries: seq<Entry>, seen: set<string>)
    ensures DistinctIds(Run(judge, entries, seen))
    decreases |entries|
  {
    if entries != [] {
      var c := judge(entries[0]);
      if c.Some? && c.value.id !in seen {
        var rest := Run(judge, entries[1..], seen + {c.value.id});
        RunIdsDistinct(judge, entries[1..], seen + {c.value.id});
        var acc := Run(judge, entries, seen);
        assert acc == [c.value] + rest;
        forall i, j | 0 <= i < j < |acc|
          ensures acc[i].id != acc[j].id
        {
          assert acc[j] == rest[j - 1];
          if i > 0 {
            assert acc[i] == rest[i - 1];
          }
        }
      } else {
        assert Run(judge, entries, seen) == Run(judge, entries[1..], seen);
        RunIdsDistinct(judge, entries[1..], seen);
      }
    }
  }

  /** Every element of `acc` is what `judge` makes of one of `entries`. */
  predicate JudgedFrom(judge: Entry -> Option<Accepted>, acc: seq<Accepted>, entries: seq<Entry>) {
    forall i :: 0 <= i < |acc| ==> exists k :: 0 <= k < |entries| && judge(entries[k]) == Some(acc[i])
  }

  /** Every kept entry is the judgement of one of the examined entries. */
  lemma {:induction false} RunFromRelevant(judge: Entry -> Option<Accepted>, entries: seq<Entry>, seen: set<string>)
    ensures JudgedFrom(judge, Run(judge, entries, seen), entries)
    decreases |entries|
  {
    if entries != [] {
      var c := judge(entries[0]);
      var seen' := if c.Some? && c.value.id !in seen then seen + {c.value.id} else seen;
      var rest := Run(judge, entries[1..], seen');
      RunFromRelevant(judge, entries[1..], seen');
      var acc := Run(judge, entries, seen);
      assert acc == if c.Some? && c.value.id !in seen then [c.value] + rest else rest;
      forall i | 0 <= i < |acc|
        ensures exists k :: 0 <= k < |entries| && judge(entries[k]) == Some(acc[i])
      {
        if c.Some? && c.value.id !in seen && i == 0 {
          assert judge(entries[0]) == Some(acc[i]);
        } else {
          var i' := if c.Some? && c.value.id !in seen then i - 1 else i;
          assert acc[i] == rest[i'];
          assert exists k :: 0 <= k < |entries[1..]| && judge(entries[1..][k]) == Some(rest[i']);
          var k :| 0 <= k < |entries[1..]| && judge(entries[1..][k]) == Some(rest[i']);
          assert entries[1..][k] == entries[k + 1];
        }
      }
    }
  }

  /** The entries that the scorer keeps, in order. */
  function Relevant(judge: Entry -> Option<Accepted>, entries: seq<Entry>): (r: seq<Entry>)
    ensures |r| <= |entries|
    ensures forall i :: 0 <= i < |r| ==> judge(r[i]).Some? && r[i] in entries
  {
    if entries == [] then []
    else if judge(entries[0]).Some? then [entries[0]] + Relevant(judge, entries[1..])
    else Relevant(judge, entries[1..])
  }

  /** Rejected entries play no part: neither the result nor the ledger changes when
      they are removed from the feed. */
  lemma {:induction false} RunSkipsIrrelevant(judge: Entry -> Option<Accepted>, entries: seq<Entry>, seen: set<string>)
    ensures Run(judge, entries, seen) == Run(judge, Relevant(judge, entries), seen)
    decreases |entries|
  {
    if entries != [] {
      var c := judge(entries[0]);
      if c.Some? {
        var r := Relevant(judge, entries);
        assert r[0] == entries[0] && r[1..] == Relevant(judge, entries[1..]);
        RunSkipsIrrelevant(judge, entries[1..], if c.value.id !in seen then seen + {c.value.id} else seen);
      } else {
        RunSkipsIrrelevant(judge, entries[1..], seen);
      }
    }
  }

  /** After a run, the fingerprint of every relevant examined entry is recorded: it was
      either already in the ledger or is one the run returned. */
  lemma {:induction false} RunCoversRelevant(judge: Entry -> Option<Accepted>, entries: seq<Entry>, seen: set<string>)
    ensures forall k :: 0 <= k < |entries| && judge(entries[k]).Some? ==>
              judge(entries[k]).value.id in seen + IdSet(Ids(Run(judge, entries, seen)))
    decreases |entries|
  {
    if entries != [] {
      var c := judge(entries[0]);
      var acc := Run(judge, entries, seen);
      if c.Some? && c.value.id !in seen {
        var seen' := seen + {c.value.id};
        var rest := Run(judge, entries[1..], seen');
        RunCoversRelevant(judge, entries[1..], seen');
        assert Ids(acc) == [c.value.id] + Ids(rest);
        assert seen + IdSet(Ids(acc)) == seen' + IdSet(Ids(rest));
      } else {
        RunCoversRelevant(judge, entries[1..], seen);
      }
      forall k | 1 <= k < |entries|
        ensures entries[k] == entries[1..][k - 1]
      {
      }
    }
  }

  /** A run over entries whose relevant fingerprints are all recorded keeps nothing. */
  lemma {:induction false} RunAllSeen(judge: Entry -> Option<Accepted>, entries: seq<Entry>, seen: set<string>)
    requires forall k :: 0 <= k < |entries| && judge(entries[k]).Some? ==> judge(entries[k]).value.id in seen
    ensures Run(judge, entries, seen) == []
    decreases |entries|
  {
    if entries != [] {
      assert forall k :: 1 <= k < |entries| ==> entries[k] == entries[1..][k - 1];
      RunAllSeen(judge, entries[1..], seen);
    }
  }

  /** Repeated runs do not resend: running again over the same entries with the ledger
      the first run left behind returns nothing. */
  lemma SecondRunFindsNothing(judge: Entry -> Option<Accepted>, entries: seq<Entry>,
                              rows: map<string, Timestamp>, now: Timestamp)
    ensures var after := MarkAll(rows, Ids(Run(judge, entries, rows.Keys)), now);
            Run(judge, entries, after.Keys) == []
  {
    RunCoversRelevant(judge, entries, rows.Keys);
    RunAllSeen(judge, entries, MarkAll(rows, Ids(Run(judge, entries, rows.Keys)), now).Keys);
  }

  /** Each returned item's fingerprint was absent from the ledger before the run and
      is recorded, stamped `now`, after it. */
  lemma FetchedIdsNewThenSeen(judge: Entry -> Option<Accepted>, entries: seq<Entry>,
                              rows: map<string, Timestamp>, now: Timestamp)
    ensures var acc := Run(judge, entries, rows.Keys);
            var after := MarkAll(rows, Ids(acc), now);
            forall i :: 0 <= i < |acc| ==> acc[i].id !in rows && acc[i].id in after && after[acc[i].id] == now
  {
    var acc := Run(judge, entries, rows.Keys);
    forall i | 0 <= i < |acc|
      ensures acc[i].id in IdSet(Ids(acc))
    {
      assert Ids(acc)[i] == acc[i].id;
    }
  }
}
