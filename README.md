# Opportunity monitor: dedup and scoring pipeline

This project models the core of `monitor.py`, a feed monitor. It polls syndication
feeds, keeps the entries that match a keyword policy, drops the ones it has already
notified about, and mails a ranked digest of the rest. The model covers:

- **Text normalisation** (`normalize_text`), in module `Text`. It collapses every
  whitespace run to one space, trims the ends and lower-cases. The module also holds
  Python's substring test `p in t`, which every keyword rule uses.
- **Fingerprints** (`item_id`), in module `Fingerprint`. A fingerprint is a digest of
  the normalised title and the normalised link joined by `|`. The SHA-256 digest is
  the parameter `digest`, an arbitrary function.
- **The seen-ledger** (`ensure_db`, `already_seen`, `mark_seen`), in module `Ledger`.
  It is the class `SeenLedger`, whose map `rows` holds the `seen` table: fingerprint
  to first-seen timestamp. `mark_seen` is `INSERT OR IGNORE`.
- **The keyword scorer** (`score_item`), in module `Scoring`. It applies three
  tiers: exclude, must-have, nice-to-have. A kept entry scores the baseline 60,
  plus 5 per matching nice-to-have entry and 5 per matching bonus term, capped
  at 100.
- **The per-source loop of `fetch_rss_source`**, in module `Feed`. The method
  `FilterEntries` keeps the Python loop: it consults and updates the ledger entry by
  entry and appends items. It is proved against the function `Run`. `Candidate` is
  the pure part of the loop body: title, link and summary extraction, scoring,
  `parse_date`, tag stripping, the 500-character cut and the placeholder title.
- **The ranking and escaping of `build_email_html`**, in module `Digest`. Items are
  sorted by `(score, published)`, highest first, and cut with Python's `[:max_items]`.
  Every text field is escaped by `esc`.

Whitespace is the set of characters Python's `str.isspace` and the `\s` regex class
accept. Tag stripping follows the regex `<[^<]+?>` exactly: it needs at least one
character inside the brackets, it stops at the first `>`, and a `<` inside a
candidate tag means there is no match at that `<`.

The scorer adds 5 points per nice-to-have list entry found
(`sum(1 for x in nice if ...)`), so a phrase listed twice counts twice.

## Model

| member | source | states |
|---|---|---|
| Text.TrimStartShape | monitor.py:50 | the left half of `str.strip()` keeps a suffix that is empty or starts with non-whitespace, and drops only whitespace |
| Text.TrimEndShape | monitor.py:50 | the right half of `str.strip()` keeps a prefix that is empty or ends with non-whitespace, and drops only whitespace |
| Text.StripShape | monitor.py:50 | `str.strip()`: the result neither starts nor ends with whitespace, and it is a slice of the input with only whitespace cut off either side |
| Text.CollapseShape | monitor.py:50 | `re.sub(r"\s+", " ", s)`: the result has no two adjacent whitespace characters, and each of its whitespace characters is a plain space; it is empty iff the input is; it never grows; it starts with whitespace iff the input does |
| Text.CollapseSplit | monitor.py:50 | a string ending in a non-whitespace character collapses independently of whatever follows it |
| Text.CollapseRun | monitor.py:50 | a whitespace run in front of a non-whitespace character becomes exactly one space |
| Text.CollapseSeparator | monitor.py:50 | a whitespace run between two non-whitespace characters becomes exactly one space, and the two sides collapse on their own |
| Text.NormalizeIsNormal | monitor.py:49-50 | the output of `normalize_text` has no leading or trailing whitespace, no two whitespace characters in a row and no upper-case letter |
| Text.NormalizeKeepsContent | monitor.py:49-50 | normalisation changes only whitespace and letter case: the non-whitespace characters of the output are those of the input, lower-cased, in order |
| Text.CollapseFixesSingleSpaced | monitor.py:50 | collapsing whitespace runs leaves a single-spaced string unchanged |
| Text.NormalFixed | monitor.py:49-50 | a string that is already normal is its own normal form |
| Text.NormalizeTwoWords | monitor.py:49-50 | two plain lower-case words separated by any whitespace run normalise to the words joined by one space, so "hello  world" and "helloworld" have different normal forms |
| Text.NormalizeIdempotent | monitor.py:49-50 | `normalize_text(normalize_text(s)) == normalize_text(s)` |
| Text.ContainsIffOccurs | monitor.py:77 | Python's `p in t` holds iff `p` occurs in `t` at some index (the empty string is in every string) |
| Fingerprint.SameNormalFormSameId | monitor.py:53-55 | equal normalised titles and equal normalised links give equal fingerprints, whatever the digest |
| Fingerprint.IdIgnoresCaseAndSpacing | monitor.py:53-55 | an entry has the same fingerprint as its own normalised title and link, so case and spacing variants share one |
| Fingerprint.JoinKeyInjective | monitor.py:54 | when neither normalised link contains `\|`, the joined keys are equal iff the normalised titles and the normalised links are equal |
| Fingerprint.JoinKeyAmbiguous | monitor.py:54 | for any words x, y, z without whitespace or capitals, the different pairs (x + "\|" + y, z) and (x, y + "\|" + z) join to the same key, so a `\|` inside a field can make two entries share a fingerprint |
| Ledger.InsertIfAbsent | monitor.py:66-69 | `INSERT OR IGNORE`: afterwards the id is a key; every existing row keeps its timestamp; a new row gets `now`; no other key appears |
| Ledger.InsertIfAbsentIdempotent | monitor.py:64-70 | inserting the same id twice equals inserting it once, and the first timestamp stays |
| Ledger.MarkAll | monitor.py:64-70 | marking a sequence of ids adds exactly those ids as keys, keeps every old row, and stamps each new row `now` |
| Ledger.SeenLedger.constructor | monitor.py:37-46 | `ensure_db` on a fresh database: the table is empty |
| Ledger.SeenLedger.AlreadySeen | monitor.py:58-61 | true iff the table has a row for the id |
| Ledger.SeenLedger.MarkSeen | monitor.py:64-70 | the table becomes `InsertIfAbsent` of the old table: the id is present, existing rows are unchanged, no other id is added |
| Scoring.Score | monitor.py:73-92 | a rejected entry scores 0; a kept entry scores between 60 and 100 |
| Scoring.Points | monitor.py:84-92 | `min(60 + 5 * nice + 5 * bonus, 100)` lies between 60 and 100 |
| Scoring.AnyInIff | monitor.py:77 | `any(p in t for p in phrases)` holds iff some phrase of the list occurs in `t` |
| Scoring.HitsCountsMatches | monitor.py:85-90 | the `sum(1 for ...)` count equals the number of list positions whose phrase occurs in the text |
| Scoring.ExclusionDominates | monitor.py:77-78 | if any normalised exclude phrase occurs in the normalised text, the verdict is `(False, 0)`, whatever the other lists hold |
| Scoring.MustHaveGate | monitor.py:80-82 | if the must-have list is non-empty and none of its normalised phrases occurs, the verdict is `(False, 0)` |
| Scoring.ScoreSpec | monitor.py:73-92 | an entry is kept iff no exclude phrase occurs and the must-have list is empty or one of its phrases occurs; a kept entry scores `min(60 + 5 * #nice entries found + 5 * #bonus terms found, 100)` |
| Scoring.ScoreIgnoresCaseAndSpacing | monitor.py:75 | the verdict depends on the text only through its normal form |
| Scoring.MoreNiceNeverLowers | monitor.py:85-86 | adding a nice-to-have phrase never changes the keep decision and never lowers the score |
| Feed.FirstDate | monitor.py:95-104 | `parse_date` priority: the first field (published, updated, created) that is present, non-empty and parses gives the date; if none does, the result is `""` |
| Feed.TagEnd | monitor.py:130 | a match of `<[^<]+?>` ends at the first `>` after at least one inner character, with no `<` in between; there is no match exactly when every later `>` has a `<` before it |
| Feed.StripTags | monitor.py:130 | tag replacement never lengthens the text and leaves a text without `<` unchanged |
| Feed.SummaryText | monitor.py:130 | the stored summary is at most 500 characters and is a prefix of the tag-stripped summary, all of it when that is short enough |
| Feed.Cap | monitor.py:110 | `entries[:200]`: at most 200 entries, a prefix of the feed, all of it when the feed is short |
| Feed.Candidate | monitor.py:111-133 | an entry is relevant iff `score_item(title + "\n" + summary)` keeps it; then its fingerprint is `item_id(title, link)` of the stripped fields, and its item is exactly the source's name, the stripped title or `"(no title)"` when that is empty, the stripped link, the `parse_date` result, the tag-stripped summary cut to 500 characters, the source's tags and the score `score_item` returned; that score is in 60..100 |
| Feed.Run | monitor.py:110-134 | a run keeps at most as many items as it examines, and no kept fingerprint was in the ledger at the start |
| Feed.FilterEntries | monitor.py:110-134 | the loop returns the items of `Run` over the examined entries and the starting ledger, and leaves the ledger as `MarkAll` of their fingerprints |
| Feed.FetchRssSource | monitor.py:107-136 | the same for the first 200 entries of the feed; at most 200 items are returned |
| Feed.RunIdsDistinct | monitor.py:121-134 | returned items have pairwise distinct fingerprints, even when the feed repeats an entry |
| Feed.RunFromRelevant | monitor.py:117-133 | every returned item is the relevant judgement of an examined entry |
| Feed.RunSkipsIrrelevant | monitor.py:117-119 | removing the entries the scorer rejects changes neither the result nor the ledger update |
| Feed.RunCoversRelevant | monitor.py:121-134 | after a run, the fingerprint of every relevant examined entry is in the ledger |
| Feed.RunAllSeen | monitor.py:121-123 | a run over entries whose relevant fingerprints are all recorded returns nothing |
| Feed.SecondRunFindsNothing | monitor.py:110-134 | running the loop again on the same entries, with the ledger the first run left, returns an empty list |
| Feed.FetchedIdsNewThenSeen | monitor.py:121-134 | each returned fingerprint was absent from the ledger before the run and is present, stamped `now`, after it |
| Digest.StrLeTotal | monitor.py:141 | Python's string order is total |
| Digest.StrLeTrans | monitor.py:141 | Python's string order is transitive |
| Digest.InsertDescPerm | monitor.py:141 | one insertion step of the sort keeps every item and adds the inserted one once |
| Digest.InsertDescSorted | monitor.py:141 | one insertion step keeps the sequence sorted by `(score, published)`, highest first |
| Digest.SortDescSpec | monitor.py:141 | the sort orders by `(score, published)`, highest first, and is a permutation of its input |
| Digest.RankSpec | monitor.py:141 | the digest holds `min(len(items), max_items)` items (Python's count from the end for a negative limit); it is non-increasing in `(score, published)`; it is a sub-multiset of the input; no item left out ranks above one kept |
| Digest.EscNoAngleBrackets | monitor.py:143-144 | `esc` output contains no `<` and no `>` |
| Digest.EscCons | monitor.py:143-144 | the three `replace` passes act character by character, with `&` escaped first so that entities are not escaped again |
| Digest.UnescapeEsc | monitor.py:143-144 | `esc` loses nothing: decoding the three entities it writes gives back the original string |

## Left out

- The SQLite connection, `os.makedirs` and the `DB_PATH` lookup (monitor.py:18, 37-46, 58-70) are I/O. The table is the in-memory map of `SeenLedger`, and the constructor is `ensure_db` on a fresh database. An existing database would start from its stored rows.
- SHA-256 (monitor.py:55) is the parameter `digest`. Collision resistance cannot be stated, so no property claims that different keys give different fingerprints.
- `feedparser.parse` (monitor.py:108) is a network fetch and a foreign library. The loop receives the parsed entries.
- The dateutil parser (monitor.py:100) is the parameter `parseDate`, which gives the ISO calendar date or `None` where the parser would raise.
- `datetime.now` (monitor.py:68) is read once per `mark_seen` call. The model uses one timestamp `now` for a whole run.
- YAML loading (monitor.py:32-34), the HTML template around the rows, SMTP and TLS sending (monitor.py:146-201) and `main` (monitor.py:204-219) are not modelled.
- Text.Normalize: lower-casing is ASCII only. Python's `str.lower` also maps non-ASCII letters, and the model does not capture that.
- `None` passed to `normalize_text` or `esc` (the `s or ""` guards at monitor.py:50, 144) is not modelled, because every field is a string in the model.
- Digest.SortDescSpec: it does not state stability. Python's `sorted(..., reverse=True)` keeps equal-key items in input order. `InsertDesc` puts an item ahead of the equal-key items after it, which gives the same order, but no lemma states this.
- Truncation still marks items seen (monitor.py:134, 141). `FetchedIdsNewThenSeen` records every fetched item, including those `Rank` later cuts. This is kept as the code has it, and no separate lemma joins the two.
