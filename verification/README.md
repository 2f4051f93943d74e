# userViewCounter: the log-line pattern and `get_top_users`

userViewCounter.py reads a web-server access log and reports the users with
the most page views. Its core has two parts:

- **The pattern** `log_line_re`. It is an anchored `bytes` regular
  expression. It recognises a data line and captures the username field.
- **`get_top_users(input_file, n)`**. It walks the file line by line. For
  each line it:
  - skips comment lines;
  - skips lines the pattern does not match;
  - decodes the captured username;
  - counts that username in a `collections.Counter`.

  It then returns `most_common(n)`.

This project models both parts as pure functions over byte sequences and
proves what they compute.

| module | file | models |
|---|---|---|
| `Wrappers` | wrappers.dfy | `Option` and `Result` |
| `Bytes` | bytes.dfy | bytes; the classes `\d`, `\s`, `.` and `[\d.]` of a bytes pattern; maximal runs |
| `Utf8` | utf8.dfy | strict UTF-8 validity (what `.decode()` accepts) and an encoder |
| `LogPattern` | log_pattern.dfy | the pattern as a grammar: a `Parse` of a line into fields, `WellFormed`, `Render`, and the backtracking priority `Precedes` |
| `LineMatcher` | line_matcher.dfy | `log_line_re.match` as a matcher that reads field by field and tries closing quotes from left to right |
| `FileLines` | file_lines.dfy | `for line in input_file` on a binary file: the contents cut after each line feed |
| `Frequency` | frequency.dfy | the `Counter`: an insertion-ordered table of `(name, count)` entries, `update` and its fold |
| `Ranking` | ranking.dfy | `most_common(n)`: a stable sort by count, largest first, cut to `n` |
| `TopUsers` | top_users.dfy | `get_top_users`: the comment test, match, extract, decode, count and rank |

How the pattern is modelled:

- **Backtracking.** `\d+?`, `[\d.]+?` and the digits of the date and time
  are each followed by a byte they cannot contain. Each of them therefore
  stops in exactly one place. Only the quoted request field `".+?"` really
  backtracks. The matcher tries every closing-quote position from left to
  right and keeps the first one after which the rest of the line matches.
- **The username.** `(?P<username>.+?)\s` is one byte other than a line
  feed, then the run of non-whitespace bytes up to the first whitespace byte.
- **Soundness and priority.** The matcher is proved sound against the
  grammar. It finds a match exactly when some parse exists. The parse it
  returns comes first in the regex's order: shortest request, then shortest
  user.

How `get_top_users` is modelled:

- **Decode failures.** A username that is not valid UTF-8 makes `.decode()`
  raise. The exception ends the whole call. The model returns a `Failure`
  naming the first such line.
- **Names stay as bytes.** Strict decoding is injective, so counting byte
  strings counts the decoded names.
- **Ranking.** `Counter.most_common(n)` is `heapq.nlargest` with a count
  key. Python documents that as equal to a stable sort by count, descending,
  cut to `n`. The model uses a stable insertion sort. Ties therefore keep the
  Counter's insertion order, which is the order in which the names were
  first seen.

## Model

| member | source | states |
|---|---|---|
| LineMatcher.MatchLineSound | userViewCounter.py:19 | when the matcher accepts a line, its parse is well-formed, renders back to exactly that line, and the username holds no whitespace after its first byte |
| LineMatcher.MatchLineFirst | userViewCounter.py:19 | for every well-formed parse of a line, the matcher accepts the line with the same leading number, date and time, and its parse precedes that parse: shorter request, or the same request and a username no longer (the lazy quantifiers' choice) |
| LineMatcher.MatchLineComplete | userViewCounter.py:19 | the matcher accepts a line if and only if the pattern's grammar has a parse of it |
| LineMatcher.MatchTailSound | userViewCounter.py:19 | what the tail stage accepts is status digits, a `[\d.]` address, a username and a whitespace byte, and renders back to its input |
| LineMatcher.MatchTailFirst | userViewCounter.py:19 | any well-formed tail is accepted, with the same status and address and a username no longer than the given one |
| LineMatcher.ScanCloses | userViewCounter.py:19 | the closing-quote search stops only where a quote, a space and a matching tail follow |
| LineMatcher.ScanSkips | userViewCounter.py:19 | every byte the closing-quote search passes over is a non-newline byte, so `.+?` may consume it |
| LineMatcher.ScanFirst | userViewCounter.py:19 | the search stops no later than any position where the request could close |
| LineMatcher.RunThenSpaceField | userViewCounter.py:19 | a lazy run `\d+?` or `[\d.]+?` followed by a space stops at exactly the end of a non-empty field of its class |
| LineMatcher.UserEndFirst | userViewCounter.py:19 | `(.+?)\s` ends at or before any whitespace byte that could end the username |
| LogPattern.UserBeforeSpace | userViewCounter.py:19 | in the line a well-formed parse renders to, the username sits at its offset and a whitespace byte follows it |
| TopUsers.UsernameShape | userViewCounter.py:19 | a captured username is non-empty, has no line feed, has no whitespace after its first byte, and is followed in its line by a whitespace byte; a last line whose username runs to the end of the line is therefore not counted |
| TopUsers.MatchStartsWithDigit | userViewCounter.py:19 | a line the pattern matches starts with an ASCII digit |
| TopUsers.CommentNeverMatches | userViewCounter.py:32-33 | a line starting with `#` is never matched by the pattern |
| TopUsers.CommentCheckRedundant | userViewCounter.py:32-37 | the comment test changes nothing: what a line contributes is exactly what the pattern alone captures |
| FileLines.JoinSplit | userViewCounter.py:31 | the lines of a file, put back together, are the file's bytes |
| FileLines.SplitAreLines | userViewCounter.py:31 | each line is non-empty, has a line feed only as its last byte, and every line but the last ends with one |
| FileLines.SplitJoin | userViewCounter.py:31 | lines of that shape, written out and read back, are the same lines |
| Frequency.RecordCount | userViewCounter.py:39 | `update([x])` adds one to the count of `x`, leaves every other count unchanged, and keeps names distinct |
| Frequency.RecordTotal | userViewCounter.py:39 | `update([x])` adds exactly one to the sum of the counts |
| Frequency.TallyDistinct | userViewCounter.py:29-39 | the Counter fed any names has distinct names and counts of at least 1 |
| Frequency.TallyCount | userViewCounter.py:29-39 | each name's count is the number of times it was fed in |
| Frequency.TallyTotal | userViewCounter.py:29-39 | the counts add up to the number of names fed in |
| Frequency.TallyNames | userViewCounter.py:29-39 | a name has an entry exactly when it was fed in |
| Frequency.TallySize | userViewCounter.py:29-39 | there is one entry per distinct name |
| Frequency.TallyOrder | userViewCounter.py:29-39 | the entries are in the order in which their names first occur (dict insertion order) |
| Ranking.SortPermutes | userViewCounter.py:41 | the ranking sort is a permutation of the Counter's entries |
| Ranking.SortSorted | userViewCounter.py:41 | the ranking sort yields non-increasing counts |
| Ranking.SortStable | userViewCounter.py:41 | the ranking sort keeps entries with equal counts in the Counter's order |
| Ranking.MostCommonLength | userViewCounter.py:41 | `most_common(n)` has `min(n, number of entries)` entries |
| Ranking.MostCommonSelects | userViewCounter.py:41 | `most_common(n)` is sorted, no entry it leaves out has a larger count than an entry it keeps, and, in a table without repeated names, an entry left out with the same count as one kept comes later in the table |
| Ranking.MostCommonKeepsFirst | userViewCounter.py:41 | in a table without repeated names, a tie at the cut to `n` keeps the entry that comes first in the table, as a stable sort followed by `[:n]` does |
| Ranking.SortTotal | userViewCounter.py:41 | the ranking sort keeps the sum of the counts |
| Ranking.MostCommonTotal | userViewCounter.py:41 | the counts `most_common(n)` reports add up to at most the table's total |
| Ranking.MostCommonFromTable | userViewCounter.py:41 | `most_common(n)` takes entries of the Counter, never a name twice, with ties in the Counter's order |
| TopUsers.MatchedNamesCount | userViewCounter.py:31-39 | the collected usernames hold each name as often as there are lines contributing it, and one name per contributing line |
| TopUsers.CountLinesSucceeds | userViewCounter.py:31-39 | the counting loop completes if and only if every captured username is valid UTF-8 |
| TopUsers.CountLinesFailure | userViewCounter.py:38 | when it fails, the error names a line whose username is not valid UTF-8 and before which every username decodes |
| TopUsers.CountLinesTally | userViewCounter.py:29-39 | when it completes, the counting loop yields the Counter of the captured usernames in file order |
| TopUsers.CountLinesConserves | userViewCounter.py:29-39 | before the cut to `n`, each name's count is the number of lines contributing it, the counts add up to the number of contributing lines, and there is one entry per distinct name |
| TopUsers.GetTopUsersTally | userViewCounter.py:22-41 | on success the result is `most_common(n)` of the Counter of the captured usernames |
| TopUsers.GetTopUsersFails | userViewCounter.py:38 | `get_top_users` fails if and only if some captured username is not valid UTF-8 |
| TopUsers.GetTopUsersLength | userViewCounter.py:41 | the result has `min(n, number of distinct usernames)` entries, so none for `n = 0` or when no line contributes |
| TopUsers.GetTopUsersOrder | userViewCounter.py:39-41 | the result's names are distinct, its counts never increase, and among equal counts the name whose first contributing line is earlier comes first |
| TopUsers.GetTopUsersCounts | userViewCounter.py:38-41 | every result entry is a captured username, and its count is at least 1 and equals the number of lines contributing it |
| TopUsers.GetTopUsersSelects | userViewCounter.py:41 | a captured username the result leaves out was counted less often than every name the result keeps, or as often but with its first contributing line later |
| TopUsers.GetTopUsersTotal | userViewCounter.py:29-41 | the counts in the result add up to at most the number of contributing lines |
| TopUsers.EntryCount | userViewCounter.py:29-39 | every Counter entry holds a captured username and the number of lines contributing it |
| Utf8.AsciiIsValid | userViewCounter.py:38 | an all-ASCII username always decodes |
| Utf8.StrayContinuationInvalid | userViewCounter.py:38 | bytes that start with a continuation byte do not decode |
| Utf8.ForbiddenLeadInvalid | userViewCounter.py:38 | bytes that start with 0xC0, 0xC1 or 0xF5..0xFF do not decode |
| Utf8.SurrogateInvalid | userViewCounter.py:38 | an encoded surrogate does not decode |
| Utf8.EncodeAllValid | userViewCounter.py:38 | the UTF-8 encoding of any text decodes |

## Left out

- **Decode fault.** `.decode()` is called without handling the error, so a
  username that is not valid UTF-8 makes the whole call raise. The model
  returns a `Failure` and does not skip the line.
- **`.decode()` returning text.** It is modelled as a validity test only.
  The model never builds code points, and names stay as bytes. This does
  not change any count or any order, because strict decoding is injective.
- **`Utf8.EncodeAllValid`** proves one direction only: encodings decode.
  The converse, that every valid byte string is an encoding, is not stated.
- **Negative `n`.** `n` is a natural number. The only caller passes the
  default, 10.
- **`heapq.nlargest`.** Its internals are replaced by the stable sort that
  Python documents as equivalent.
- **The Flask application.** This covers its routes, the upload form
  (userViewCounter.py:10, userViewCounter.py:58-99) and the loop that splits
  the result into names and counts. It is web I/O and presentation.
- **Secret-key loading and its `assert`** (userViewCounter.py:11-13). This
  is file-system set-up.
- **The plotly pie chart** (userViewCounter.py:44-55). It belongs to an
  external rendering library.
- **The `User` namedtuple** (userViewCounter.py:16). It is never used by
  `get_top_users`.
- **Reading the file.** The file is a byte string. `FileLines.SplitLines`
  models how iteration cuts it into lines, and `get_top_users` is modelled
  on the sequence of lines.
