# Proxy IP list builder — Dafny model

`upload_ips.py` builds a list of candidate proxy addresses and publishes it as a
text file. It downloads CSV feeds, takes at most `limit_count` (10) addresses
from each feed, and annotates every address with a label. The label carries a
country code fetched from ipinfo.io, or "Unknown" when that lookup fails.
Finally it joins the lines with newlines into the file content.

The model covers everything between the downloads and the upload:

- `extract_ips` is `Extract.ExtractIps`. It is a loop with an early exit, proved
  equal to `Extract.Extracted`, meaning "the first `limit` qualifying first
  fields". A row qualifies when it is non-empty and its first field holds exactly
  three `.` characters (`Extract.QualifyingFields`).
- The line construction of `get_ip_location` is `Annotate.AnnotateLine`. The
  lookup's outcome is an input (`LookupReply`: HTTP status and optional
  `country`).
- `annotate_ips` is `Annotate.AnnotateIps`. `lookup(i)` stands for the service's
  reply to the `i`-th request.
- The loop of `main` over the sources is `Pipeline.CollectIps`, specified by
  `Pipeline.Gathered`. The whole run up to the upload is `Pipeline.Run`.

Files:

- `wrappers.dfy`: `Option`.
- `text.dfy`: character counting, newline join and split, and cutting a line at
  its last `#`.
- `extract.dfy`, `annotate.dfy`, `pipeline.dfy`: the three stages above.

Behaviour worth spelling out:

- A failed download raises out of `main` (`download_csv` calls
  `raise_for_status` and nothing catches it), so the run ends without
  publishing. `Run` returns `None` in that case.
- `row[0]` is kept verbatim: no `:port` is split off and no port is added.
  Lines have the form `ip#label`.
- On a failed lookup the label is prefix, `Unknown`, suffix. On a successful
  lookup it is prefix, suffix, country. `Annotate.UnknownLabelsDiffer` records
  that the two "Unknown" lines differ.
- The limit test runs after every row, including skipped ones. With a limit of 1
  or more this gives exactly the first `limit` qualifying fields. With a limit
  of 0, only the first row can contribute. `Extracted` models both cases.
  `Pipeline` uses `main`'s constant `limit_count` = 10 (upload_ips.py:25),
  written `LimitCount`.
- The country from a 200 reply is written unchanged. A country holding a
  newline adds lines to the published file, and one holding `#` moves the
  line's last `#`. `Annotate.LineRecoversAddress` and `Pipeline.PublishedFile`
  do not cover such replies.

## Model

| member | source | states |
|---|---|---|
| `Text.CountChar` | upload_ips.py:36 | the count of `.` in a field never exceeds its length and is zero exactly when no `.` occurs |
| `Text.CountCharIsMultiplicity` | upload_ips.py:36 | the count is exactly the number of times the character occurs in the string (its multiplicity in the string's multiset) |
| `Text.Join` | upload_ips.py:78 | the joined content starts with the first line |
| `Text.SplitJoin` | upload_ips.py:78 | splitting the newline-joined content of a non-empty list of newline-free lines gives back exactly those lines |
| `Text.JoinSplit` | upload_ips.py:78 | every content string is the join of its newline-separated pieces (the inverse direction) |
| `Extract.QualifyingFields` | upload_ips.py:35-37 | the unlimited collection keeps, in row order, the first field of each row that passes `Extract.Qualifies` (non-empty, first field with exactly three `.`, the test of line 36); it has at most one field per row, and every field in it holds three `.` and is the verbatim first field of some non-empty row |
| `Extract.QualifyingFieldsComplete` | upload_ips.py:35-37 | no qualifying row is missed: the first field of every row that passes `Extract.Qualifies` is in the collection |
| `Extract.QualifyingAppend` | upload_ips.py:35-37 | rows are processed in order: the fields from `a + b` are those from `a` followed by those from `b` |
| `Extract.QualifyingPrefix` | upload_ips.py:35-37 | what the first `k` rows contribute is a prefix of what all rows contribute |
| `Extract.Extracted` | upload_ips.py:32-40 | the result is a prefix of the in-order qualifying fields; it has at most `limit` elements (at most 1 when the limit is 0); for a limit of 1 or more, exactly `limit` when enough rows qualify; all qualifying fields when at most `limit` rows qualify; with a limit of 0, the first row's field if that row qualifies and nothing otherwise |
| `Extract.ExtractedFields` | upload_ips.py:36-37 | every extracted address holds exactly three `.` and is copied unchanged from the first field of a non-empty row |
| `Extract.LimitReached` | upload_ips.py:38-39 | stopping right after the row where the list first reaches the limit yields exactly `Extracted` |
| `Extract.ExtractIgnoresLaterRows` | upload_ips.py:38-39 | once the rows seen so far supply `limit` qualifying fields, appending more rows does not change the result |
| `Extract.ExtractIps` | upload_ips.py:32-40 | the filter loop with its append and early exit returns exactly `Extracted(rows, limit)` |
| `Annotate.AnnotateLine` | upload_ips.py:44-49 | every line, whatever the status, begins with the address followed by `#` |
| `Annotate.LineRecoversAddress` | upload_ips.py:46-49 | when the reply is not a 200 whose shown country holds a `#`, cutting the line at its last `#` gives back the address. The label after it is prefix + suffix + country on status 200, where an absent `country` reads as "Unknown" through `Wrappers.Option.GetOr` (the `data.get` default of line 46), and prefix + "Unknown" + suffix otherwise |
| `Annotate.UnknownLabelsDiffer` | upload_ips.py:46-49 | a 200 reply without a country and a failed reply give different lines for the same address |
| `Annotate.LineWithoutNewline` | upload_ips.py:46-49 | a line has no newline when neither the address nor the shown country has one |
| `Annotate.AnnotateIps` | upload_ips.py:51-55 | the output has the input's length and order: line `i` is the formatted line of address `i` with reply `i`; the loop's result equals `Annotate.AnnotatedLines(ips, lookup)`, the function that models `annotate_ips` as a value and that `Pipeline.Run` uses |
| `Pipeline.GatheredFails` | upload_ips.py:27-30 | the run's collection fails exactly when some download failed |
| `Pipeline.GatheredFields` | upload_ips.py:67-72 | every collected address holds three `.` and is the verbatim first field of a non-empty row of some successful download |
| `Pipeline.GatheredBound` | upload_ips.py:67-72 | the total is at most `LimitCount` times the number of sources |
| `Pipeline.GatheredConcatSucceeds` | upload_ips.py:67-72 | a run over two stretches of sources succeeds exactly when each stretch does |
| `Pipeline.GatheredConcat` | upload_ips.py:67-72 | sources contribute in URL order: the addresses of `a + b` are those of `a` followed by those of `b` |
| `Pipeline.GatheredFullSources` | upload_ips.py:67-72 | the limit is per source: sources that each qualify at least `LimitCount` rows give exactly `LimitCount` times the number of sources, which exceeds the limit once there are two |
| `Pipeline.CollectIps` | upload_ips.py:66-72 | the loop over sources returns `Pipeline.Gathered(downloads)`: the function that models `all_ips` as each successful source's `Extracted` list appended in URL order, or `None` once any download failed; the loop returns `None` at the first failed download |
| `Pipeline.Run` | upload_ips.py:66-78 | the run fails exactly when a download fails; otherwise its content is the newline join of the annotated lines of the gathered addresses |
| `Pipeline.PublishedFile` | upload_ips.py:75-78 | no addresses give the empty file. When no address holds a newline and no 200 reply's shown country holds a newline or a `#`, the file splits into one line per address in order, and line `k` is address `k`'s annotated line and parses back to that address at its last `#` |

## Left out

- `download_csv` (HTTP GET and `raise_for_status`): I/O. Each source's outcome is an input, either its rows or a failure.
- `csv.reader` over `splitlines()`: quoting, escaping and line endings belong to the library. Rows arrive already split into fields.
- The ipinfo.io request, its Authorization header and `response.json()`: network and library calls. The status and the optional `country` string are inputs. Two cases are not modelled: a transport exception from `requests.get`, which would end the run, and a 200 body that is not a JSON object or has a non-string `country`.
- `upload_to_github`: a wrapper over the PyGithub library, including its fallback to `create_file` on any failure. `Run` stops at the content that would be uploaded.
- The access token from the environment, the `print` status lines and the `csv_urls` list: the sources are given as a sequence in URL order.
- Strings are sequences of Dafny characters, that is, of Unicode scalar values. A Python `str` may also hold lone surrogates (a `country` decoded from the JSON `"\ud800"`, say); such strings have no counterpart in the model.
- `Pipeline.Gathered` fixes the per-source limit to `LimitCount`, as `main` does. The limit as a parameter is modelled only in `Extract`.
