# lessongate, modelled and verified

lessongate turns lessons written beside merged pull requests of a private repository into draft pull
requests on a public one. Nothing private may get out and nothing may be proposed twice. This project
models the parts of the program that carry those two promises, and proves properties of them with
Dafny 4.11 (`dafny verify dfyconfig.toml`).

Where the program changes state step by step, the model does too: `Redact`, `Check`, `EmitDraft`,
`FindByFingerprint`, the ledger's `Open`, `Put`, `Cursor`, `Lock` and `Unlock`, `Parse`,
`MergedSince`, `Classify`, `ProcessLesson` and `Run` are methods with the program's own loops and
branches. Each is proved equal to, or bound by, a specification, and what the program promises is
proved about the specification.

## What is modelled

**Redaction** (`Text`, `Regexp`, `Replacing`, `Redaction`). The patterns are regular expressions as
data. `Regexp.Ends` is the leftmost-first engine, with backtracking order and `\b`; `Regexp.Matches`
says, without order, what a pattern matches; the two are proved to agree. `Redact` stashes the
allow-listed tokens, makes the eight passes, the deny-list pass, and restores.

- `Shapes`, `Longest`, `Findings`: which texts the patterns match and which of several matches is taken, in
  slices, lengths and characters; and the whole of `Redact` and `Check` said with these forms alone.
- `Completeness`: after the structural passes nothing matches any of the eight patterns.
- `Restoration`: no hit is the same as no change; text without tokens is a fixpoint.
- `Alignment`: exactly when every token comes back to its own place.
- `AllowShape`, `Harmlessness`: what allow-listed tokens look like, and what a text must hold to hold
  a secret.
- `Idempotence`, `Sealing`: redacting twice, with tokens in the text; `Uncovered`, `Swallowed`: families
  of texts on which the second run finds more.
- `FinalText`: where a pattern can still match in the text that is returned.
- `DenyList`, `DenyTerms`: when the deny-list pass leaves the text clear, and which terms undo what the
  structural passes did.

**The gate** (`Gate`) is built from the redactor's hits; `Findings` says what its verdict holds.

**Emission** (`Identity`, `Numerals`, `Names`, `Emit`, `EmitLaws`, `Markers`, `Descriptions`, `SingleRun`,
`EmitSteps`). `Emit` is the emitter over a forge whose every request may work, be refused, or take effect
while its reply is lost; `Names` says what everything it leaves there is called. `SingleRun` is the
multi-process protocol, one request (one page of the listing) a step, with crashes between any two
steps and other people opening pull requests at any time. `EmitSteps` shows that the emitter's runs are
runs of that protocol, `Markers` when a marker tells its fingerprint from every other, `Descriptions`
when a published description is clean. The program's wiring does not take the ledger's lock; `SingleRun` models the
discipline internal/ledger/lock_unix.go:15-17 states, and shows what happens without it.

**The ledger** (`LedgerLog`, `LedgerCodec`, `Ledger`, `LedgerLaws`). A file is the sum of what its
appends left of their lines: all, a part, or nothing. JSON is a pair of functions of which
`LedgerLog.Faithful` asks that entries round-trip on one line and that torn and glued entries are
rejected; `LedgerCodec` shows that this can be met.

**The registry parser** (`Lines`, `Lessons`, `LessonLaws`, `Headings`, `Printing`, `RoundTrip`, `Reparsing`), **the
watcher** (`Watch`, `Draining`), **the reconciler** (`Reconcile`) and **the orchestrator** (`Pipeline`,
`Intake`, `PipelineLaws`, `Leaks`), the last one over the real redactor, gate, reconciler and emitter.

## Where the guarantees end

- A published description is not gated as a whole. The marker is added after the gate
  (internal/emit/emit.go:97), and the pipeline puts the redacted lesson into it
  (internal/pipeline/pipeline.go:182). The description is clean exactly if summary and fingerprint both
  pass the gate (`Descriptions.DescriptionIsCleanIff`), and nobody asks the fingerprint to: there are
  lessons whose redacted text the gate refuses and the pipeline publishes (`Leaks.LeakHappens`).
- Redaction is not idempotent, and its result can be refused by the gate: when redaction changes a gap
  that ends in a dot or a dash right before a token (`Uncovered.NotIdempotent`), or when an ARN runs
  into a token and the tokens move up (`Swallowed.ReachingIsNotIdempotent`).
  `Sealing.RedactIsIdempotent` says which texts are safe from both.
- An allow-listed host name hides a key: sk-ant-SECRET123.example.com comes back unchanged and is safe
  (`FinalText.HostHidesKey`). Away from the tokens that come back nothing is left
  (`FinalText.MatchesMeetTokens`).
- The deny-list pass comes last and can undo the structural ones: a term with a word at one end gives a
  secret beside it its word boundary, one that begins with white space or a quote completes an ARN
  (`DenyTerms.TermKeepsClearIff`, `DenyTerms.DenyListUncovers`). The wired deny-list is empty.
- A marker can be taken for that of another fingerprint, whose emission then stops without publishing: exactly
  when a marker begins in the summary or the fingerprint, or ends in the fingerprint
  (`Markers.MarkerTellsIff`, `Markers.MistakenIsDropped`). The pipeline's fingerprints hold the lesson's
  text, not the hash of `Fingerprint`.
- The parser's own output need not survive printing and parsing (`RoundTrip.ReparsingCanDiffer`): exactly
  when a section's first line that is not blank is an indented heading (`Reparsing.ReparseIff`).
- Pull requests are lost for good, over however many rounds, exactly if a multiple of the limit separates
  two of the backlog that merged at the same moment (`Draining.DrainsIff`).
- The ledger's cursor can move back (`LedgerLaws.CursorMovesBackIff`).

## Where code and documentation disagree

The model follows the code. internal/ledger/ledger.go:7 speaks of a temporary file and a rename; the
code appends and syncs. internal/reconcile/reconcile.go:56-57 speaks of the smaller name's tokens; the
code divides by all of them. The fence rule is a plain toggle on lines that begin, after white space,
with three backquotes, not the rule of section 4.5 of CommonMark 0.31.2.

## Model

| member | source | states |
|---|---|---|
| Regexp.EndsAreMatches | internal/redact/redact.go:48-70 | The ordered backtracking engine finds an end for a start exactly if the pattern, read without any order, matches that slice with its word boundaries. |
| Regexp.MoveMatch | internal/redact/redact.go:48-70 | A match depends only on the slice it covers and on the word boundaries at its two ends. |
| Regexp.EndsInWindow | internal/redact/redact.go:48-70 | Where a character no match contains closes the view, the engine makes the same choices in the same order, whatever lies beyond. |
| Regexp.CutWeaves | internal/redact/redact.go:97-102 | Cutting a text at its leftmost matches loses nothing: gaps and tokens interleaved are the text. |
| Regexp.ReplaceAll | internal/redact/redact.go:99-110 | The scanning loop returns the gaps joined by the replacement and hands the callback the matched tokens in order. |
| Redaction.Redact | internal/redact/redact.go:93-128 | The method's text and hits are those of stash, eight ordered passes, deny-list pass and restore, with a hit for every match. |
| Shapes.SecretIs | internal/redact/redact.go:48-59 | Each of the eight patterns matches a slice exactly if the slice is a secret of its kind: prefix, length, characters, and for bundle identifiers and account numbers no word running on. |
| Shapes.NameIs | internal/redact/redact.go:65-70 | The allow-list matches exactly com.example.<name>, <name>.example.com, developer.apple.com and docs.aws.amazon.com, in any case, with no word running on. |
| Longest.FirstIsLongest | internal/redact/redact.go:48-59 | Of the secrets of one kind that begin at a place the longest is taken, and one is taken if there is one. |
| Longest.FirstTermIsFound | internal/redact/redact.go:81-88 | Of the deny-listed terms that stand at a place, up to case, the one listed first is taken. |
| Findings.RedactIsExact | internal/redact/redact.go:93-128 | Redaction sets the allow-listed names aside, replaces the secrets kind by kind in the order of the table and then the deny-listed terms, each time leftmost and longest, puts the names back, and reports one hit with kind and placeholder for each text replaced. |
| Findings.HitIsSecret | internal/redact/redact.go:48-59 | A pattern hits at a place exactly if a secret of its kind begins there. |
| Findings.SecretsAreFound | internal/redact/redact.go:93-128 | A text without an allow-listed name is safe exactly if it holds no secret, and what redaction makes of it holds none. |
| Findings.SecretAlone | internal/redact/redact.go:46-59 | A text that is one secret and holds none of an earlier kind becomes that kind's placeholder with one hit: an ARN stays one ARN whatever account number it holds. |
| Completeness.CutKeeps | internal/redact/redact.go:104-112 | A pass, or the stashing of the tokens, brings no match of another pattern into being, at any splice. |
| Completeness.CutClears | internal/redact/redact.go:104-112 | A pass leaves no match of its own pattern, its placeholders included. |
| Completeness.StructuralPassesAreComplete | internal/redact/redact.go:46-59 | After the eight passes none of the eight patterns matches anywhere, for every text. |
| Restoration.RestoreJoin | internal/redact/redact.go:122-125 | With one sentinel for each token, replacing the first sentinel left, token by token, puts every token in its own place. |
| Restoration.NoHitsIffUnchanged | internal/redact/redact.go:93-128 | For NUL-free text and an empty deny-list there are no hits exactly if the result is the text. |
| Restoration.RedactIsFixpoint | internal/redact/redact.go:93-128 | NUL-free text without allow-listed tokens is redacted to a fixpoint: the second run has no hits and changes nothing, even if it stashes tokens the first one uncovered. |
| Restoration.ClearTextPasses | internal/redact/redact.go:93-128 | NUL-free text that no structural pattern matches passes unchanged, whatever tokens are stashed from it. |
| Alignment.RewriteSplits | internal/redact/redact.go:104-112 | All eight passes treat the texts on both sides of a sentinel separately, if no ARN begun on its left reaches it. |
| Alignment.AlignedIffNoArnReaches | internal/redact/redact.go:97-125 | The result is the gaps between the tokens, each redacted by itself, with the original tokens between them, exactly if no ARN that begins in a gap runs up to the next token. |
| AllowShape.AllowIsWords | internal/redact/redact.go:65-70 | The allow-list matches exactly its four kinds of names, word for word up to case, standing between word boundaries. |
| AllowShape.AllowIsToken | internal/redact/redact.go:65-70 | So each token has the length, the dots and the kinds of characters of one of four shapes, and no word runs on at either end. |
| Idempotence.UntouchedParts | internal/redact/redact.go:97-102 | In a gap that redaction left alone no token starts on the second run, whatever now follows the token behind the gap; the engine finds there what it finds in the gap alone. |
| Idempotence.UntouchedIffClear | internal/redact/redact.go:104-112 | The passes leave a text alone exactly if none of the eight patterns matches it. |
| Sealing.ScrubSealed | internal/redact/redact.go:104-112 | A pass over gaps in which no word runs on into a sentinel leaves such gaps, fewer if an ARN ran over a sentinel; gaps that end in a character no token contains stay so. |
| Sealing.RestoreSome | internal/redact/redact.go:122-125 | When sentinels were lost, the first tokens take those that are left and the others are dropped. |
| Sealing.CleanIsWoven | internal/redact/redact.go:97-125 | Every NUL-free text comes back woven of its first tokens, in order, and of gaps in which, kept apart by sentinels, no structural pattern matches. |
| Sealing.RedactIsIdempotent | internal/redact/redact.go:93-128 | The second run finds nothing and changes nothing if for every gap before a token an ARN in it reaches the token, or it ends in a character no token contains, or it holds no match and no ARN before it reached a token. |
| Uncovered.NotIdempotent | internal/redact/redact.go:97-125 | For every AWS access key there is a text whose redaction the redactor changes again and the gate refuses. |
| Swallowed.ReachingIsNotIdempotent | internal/redact/redact.go:97-125 | The same for a family of texts in which an ARN reaches a token, though every gap holds no match or ends in a character no token contains: the token that moves up makes a bundle identifier. |
| FinalText.MatchesMeetTokens | internal/redact/redact.go:93-128 | The returned text is woven of gaps and of the first tokens, and whatever a structural pattern still matches in it shares a character with one of these tokens, whether or not ARNs ran over others. |
| FinalText.WordMatchesAreTokens | internal/redact/redact.go:93-128 | An access key or an account number that is left lies wholly in tokens, and GitHub's tokens are never left. |
| FinalText.HostHidesKey | internal/redact/redact.go:49-67 | Every text of the form sk-ant-<label>.example.com holds a key, comes back unchanged without a hit, and is safe. |
| DenyList.GentlePassIsComplete | internal/redact/redact.go:104-120 | For every deny-list and text no structural pattern matches after the deny-list pass, if no replaced match that begins with white space or a quote stands right behind arn:aws:, and no word runs on into a replaced match or out of it. |
| DenyList.GentleTermsKeepClear | internal/redact/redact.go:81-120 | That is so for every text if all terms begin with neither a word, white space nor a quote and do not end in a word. |
| DenyTerms.TermKeepsClearIff | internal/redact/redact.go:81-120 | A single term never undoes a structural pass, on any clear text, exactly if it is of that kind or holds an account number of its own and so matches in no clear text. |
| DenyTerms.DenyListUncovers | internal/redact/redact.go:93-128 | For every other term without a dot there is a text whose redaction with that term holds a secret. |
| Gate.Check | internal/gate/gate.go:45-64 | The verdict is safe exactly without hits; its reasons are the kinds in order of first occurrence, its novel list the placeholders of all structural hits. |
| Gate.ReasonsAreKinds | internal/gate/gate.go:51-56 | The reasons are exactly the kinds that were hit, each once. |
| Gate.SafeMeansClear | internal/gate/gate.go:30-48 | An artifact is safe exactly if neither a structural pattern nor the deny-list matches it with its tokens stashed. |
| Findings.SafeMeansNothingHeld | internal/gate/gate.go:30-48 | For every deny-list, an artifact is safe exactly if, its allow-listed names set aside, it holds neither a secret nor a term. |
| Findings.VerdictIsExact | internal/gate/gate.go:45-64 | The novel list holds the placeholder of every secret found and of no deny-listed term; the reasons are the kinds found, in the order of the table, the deny-list last. |
| Gate.SafeIffUnchanged | internal/gate/gate.go:30-48 | With an empty deny-list, NUL-free text is safe exactly if redaction leaves it alone. |
| Gate.RedactedIsSafe | internal/gate/gate.go:38-48 | Redacted text passes the gate if it held no allow-listed token. |
| Identity.NamesAreInjective | internal/config/config.go:58-65 | Ledger key, log name, branch and path each tell lessons apart exactly by pull request and index; branches begin with lessongate/. |
| Names.NamesReadBack | internal/config/config.go:58-65 | Every name is its fixed text around the decimal numerals of the pull request and of the index, in this order. |
| Emit.Forge.FindByFingerprint | internal/emit/github.go:28-52 | The page loop's answer and the requests it spent, for every behaviour of the network. |
| Emit.Forge.CommitFile | internal/emit/emit.go:50-53 | A commit request that works, is refused, or takes effect unnoticed, and what each leaves of branch, path, content and message. |
| Emit.Forge.CreateDraft | internal/emit/emit.go:54-54 | The same for the creation of a draft. |
| Emit.EmitDraft | internal/emit/emit.go:73-100 | Result and forge after gating body and file, looking up the fingerprint, committing and creating, for every behaviour of the network. |
| EmitLaws.SearchIsExact | internal/emit/github.go:28-52 | Page by page, the search finds the newest marked pull request wherever it is, reports none only if there is none, and fails exactly if one of the page requests it sent does not work. |
| EmitLaws.SearchCosts | internal/emit/github.go:28-52 | A search that finds nothing sends one request for every hundred pull requests, and at least one. |
| EmitLaws.EmissionIsOneStep | internal/emit/emit.go:73-100 | An emission does nothing, or commits, or commits and opens the draft right behind it on the same branch; the last two only if both texts are gated and no pull request was marked; the address returned is the newest marked one's. |
| EmitLaws.WhereEmissionStops | internal/emit/emit.go:73-100 | For every behaviour of the network: which text is refused before any request, when the search fails, when a marked pull request ends it, and what a commit or a draft that is refused, or whose reply is lost, leaves behind. |
| Names.EmissionIsNamed | internal/emit/emit.go:34-36 | All an emission adds to the log bears its lesson's names: branch, path and message of the commit, branch and title of the draft, and the marker at the end of its body. |
| Names.RunIsNamed | internal/pipeline/pipeline.go:98-188 | Each commit and draft of a run bears the names of one of its lessons and holds what the extractor made of that lesson. |
| EmitLaws.EmissionKeepsLog | internal/emit/emit.go:73-100 | Whatever the network does, every draft keeps standing behind the gated commit of its file with its gated, marked body, and no fingerprint gets a second draft. |
| EmitLaws.EmissionSucceeds | internal/emit/emit.go:73-100 | With a forge that works, emission succeeds exactly if both texts pass the gate. |
| EmitLaws.MarkedIsFound | internal/emit/emit.go:82-87 | If a pull request carries the marker, emission changes nothing and returns the newest one's address. |
| EmitLaws.EmitTwice | internal/emit/emit.go:82-99 | Emitting again changes nothing and yields the same result. |
| Markers.MarkerTellsIff | internal/emit/emit.go:21-29 | A body carries the marker of its own fingerprint and of no other exactly if no marker begins in the body or the fingerprint and none ends in the fingerprint. |
| Markers.HexTells | internal/emit/emit.go:21-29 | With the hexadecimal fingerprints that Fingerprint builds, exactly if no marker begins in the body. |
| Markers.MistakenIsDropped | internal/emit/emit.go:82-99 | Otherwise, if the forge works, an emission makes some other fingerprint, under which it opened nothing, pass for existing: every later gated emission for that one succeeds and publishes nothing. |
| Descriptions.ClearApart | internal/redact/redact.go:46-59 | A text that begins with white space or a quote, ends in a character no pattern but the ARN's contains and starts no match keeps its two sides apart: the whole holds no match exactly if neither side does. |
| Descriptions.TokensApart | internal/redact/redact.go:97-102 | Nor does any allow-listed token cross such a text. |
| Descriptions.DescriptionIsCleanIff | internal/emit/emit.go:73-99 | The description a draft is published with passes the gate exactly if both the summary and the fingerprint do. |
| SingleRun.StepKeepsInv | internal/ledger/lock_unix.go:15-50 | Every step of every process, every crash and every stranger's pull request keeps: one process at work, no fingerprint opened twice, and what a page-wise search has ruled out so far. |
| SingleRun.AtMostOnce | internal/ledger/lock_unix.go:15-50 | In every interleaving of processes under the lock, with crashes anywhere, at most one is at work and each fingerprint is opened at most once. |
| SingleRun.TwiceWithoutLock | internal/emit/emit.go:82-99 | Without the lock two processes can open the same draft. |
| EmitSteps.EmissionIsPath | internal/emit/emit.go:73-100 | Every gated emission, whatever the network answers, is a sequence of protocol steps of one process, one to begin and one for each request sent, that leads to the drafts in the forge's log. |
| EmitSteps.EmissionKeepsProtocol | internal/emit/emit.go:73-100 | Run by the holder of the lock, the emitter keeps the protocol's invariant, whatever other people opened before. |
| EmitSteps.NobodyIsStuck | internal/ledger/lock_unix.go:15-50 | From every state that keeps the invariant: after the holder crashes, a new process can take the lock, open the draft of a fingerprint nobody carries, and free the lock. |
| LedgerLog.ReplayIsExact | internal/ledger/jsonl.go:34-69 | After any history of whole, torn, failed and newline-less appends, loading succeeds exactly if every append left nothing or a whole entry below the line limit and nothing follows a lost newline; it then yields the last-wins fold of the entries that are there whole. |
| LedgerLog.BrokenLineRejected | internal/ledger/jsonl.go:57-60 | A line that begins with a torn entry, or holds more than one, is refused whatever is appended to it. |
| LedgerLog.AckedAreWhole | internal/ledger/jsonl.go:80-109 | Every acknowledged put is among the whole entries, in order. |
| LedgerLog.FoldIsLatest | internal/ledger/jsonl.go:27-30 | The string-keyed map is a map on pull request and index: it has an entry exactly for the lessons put, the last one put. |
| LedgerCodec.CodecIsFaithful | internal/ledger/jsonl.go:55-60 | What is asked of the entry codec can be met: round trip on one line, torn and glued entries rejected. |
| Ledger.JSONL.Open | internal/ledger/jsonl.go:34-69 | Opening succeeds exactly for a readable history, takes what is whole in the file, holds no lock; a line over the limit is reported as such. |
| Ledger.JSONL.Scan | internal/ledger/jsonl.go:49-68 | The line loop's map, or its first error, is that of replaying the bytes. |
| Ledger.JSONL.Put | internal/ledger/jsonl.go:80-109 | A zero time is stamped and any other kept; some bytes of the line land; memory follows, and success is reported, exactly if all landed and were synced. |
| Ledger.JSONL.Get | internal/ledger/jsonl.go:72-77 | The entry under the lesson's key, if any. |
| Ledger.JSONL.Cursor | internal/ledger/jsonl.go:111-123 | The largest update time in the map, zero if none is above it. |
| Ledger.JSONL.Lock | internal/ledger/lock_unix.go:15-34 | Succeeds for the holder and, if the lock file opens, when nobody holds it; says busy exactly if another instance does; never takes a lock away. |
| Ledger.JSONL.Unlock | internal/ledger/lock_unix.go:37-50 | Frees the lock if this instance holds it, leaves another's alone, and reports a failed unlock or close. |
| Ledger.OnlyOneHolds | internal/ledger/lock_unix.go:15-34 | Two instances over the same files never both hold the lock. |
| Ledger.ReplayStep | internal/ledger/jsonl.go:51-62 | One line of a replay: over the limit, empty, refused, or put under its key. |
| LedgerLaws.ReadableMeans | internal/ledger/jsonl.go:34-69 | The histories that can be reopened, said of single appends and pairs of them. |
| LedgerLaws.AckedSurvives | internal/ledger/jsonl.go:80-109 | Whatever follows an acknowledged put, a ledger that opens holds for its lesson that entry or a later one of the same lesson. |
| LedgerLaws.ReopenAgrees | internal/ledger/jsonl.go:34-109 | Reopening the file yields this instance's memory, if nobody else wrote since it opened and whatever of its own landed whole was acknowledged. |
| LedgerLaws.EditedLines | internal/ledger/jsonl.go:49-62 | Empty lines do not matter to a replay, nor does a carriage return at a line's end. |
| LedgerLaws.CursorMovesBackIff | internal/ledger/jsonl.go:111-123 | A put moves the cursor back exactly if it gives an earlier time to the only lesson at the high-water mark. |
| Lessons.Parse | internal/lessons/lessons.go:33-77 | The line loop with its fence flag and flush yields the lessons of the sections the specification cuts the lines into. |
| LessonLaws.SectionsAreExact | internal/lessons/lessons.go:29-74 | Preamble and sections hold every line once, in order, and a section begins exactly at each heading line preceded by an even number of fence lines. |
| Headings.HeadingIff | internal/lessons/lessons.go:26-27 | A line is a heading exactly if it is "## Lesson ", one digit or more, a colon, and anything. |
| Headings.FenceIff | internal/lessons/lessons.go:48-51 | A line is a fence exactly if it is white space, three backquotes, and anything. |
| Headings.StrippedIsTrim | internal/lessons/lessons.go:38-66 | Trimming yields the one text without white space at its ends that, with white space around it, is the original. |
| Headings.ParseIsExact | internal/lessons/lessons.go:33-77 | The lessons are those of exactly the heading lines behind an even number of fence lines, in order; the number is the digits' decimal value, at most the largest 64-bit integer, the title the rest of the line and the body the lines up to the next such heading, both trimmed. |
| Printing.SectionsSum | internal/lessons/lessons.go:47-74 | The sections of two registries put together are those of the first continued by the second, in the fence state the first ends in. |
| Printing.ConcatIff | internal/lessons/lessons.go:26-77 | When the first ends its last line outside a fence, two registries parse one after the other exactly if the first has no lesson or the second's preamble is blank. |
| RoundTrip.HeadingIs | internal/lessons/lessons.go:26-27 | Digits and text in the heading's form are read back as number and trimmed title. |
| RoundTrip.ParsedShape | internal/lessons/lessons.go:60-66 | Every lesson parsed has a number in range, a trimmed one-line title and a trimmed body. |
| RoundTrip.FirstLesson | internal/lessons/lessons.go:33-77 | The first of several printed lessons comes back exactly if its body has no heading of its own and closes its fences before another lesson. |
| RoundTrip.RoundTripIff | internal/lessons/lessons.go:26-77 | Printed lessons parse to themselves exactly if numbers are in range, titles trimmed one-liners, bodies trimmed and without unfenced headings, and every body but the last closes its fences. |
| RoundTrip.ReparsingCanDiffer | internal/lessons/lessons.go:47-77 | A registry whose parsed lessons, printed, parse to something else. |
| Reparsing.SectionsAreCalm | internal/lessons/lessons.go:47-74 | A section's own lines hold no heading outside their fences and close these before the next section. |
| Reparsing.ReparseIff | internal/lessons/lessons.go:33-77 | Parsing, printing and parsing again gives the same lessons exactly if in no section the first line that is not blank is an indented heading. |
| Watch.SortByMergedAt | internal/watch/watch.go:62-64 | The array is sorted in place by merge time and is a permutation of what it was. |
| Watch.MergedSince | internal/watch/watch.go:46-70 | Fails exactly if the lister does; else as many merged, later pull requests as the limit allows, oldest first, none left out that merged before one taken. |
| Draining.WhatIsReturned | internal/watch/watch.go:46-70 | What is returned was merged, later than the cursor; if any such pull request is left out, the limit is used up and nothing returned was merged after it. |
| Draining.OnlyTheFront | internal/watch/watch.go:62-69 | With distinct merge times that answer is unique: the front of the backlog. |
| Draining.UnlimitedIsBacklog | internal/watch/watch.go:66-70 | Without a limit the answer is the whole backlog in order, strictly if no two merged at once. |
| Draining.CursorAdvances | internal/ledger/jsonl.go:111-123 | Recording what was returned moves the ledger's cursor to the last merge time returned. |
| Draining.DrainsInOrder | internal/watch/watch.go:42-70 | From any ledger, with a complete lister and a limit of at least one: if no multiple of the limit separates two of the backlog that merged at once, k rounds return, in order, its first k times limit pull requests. |
| Draining.Drains | internal/watch/watch.go:42-70 | With distinct merge times this always holds, and what is returned is that very list. |
| Draining.DrainsIff | internal/watch/watch.go:42-70 | Over enough rounds everything is returned exactly if no multiple of the limit separates two of the backlog that merged at once; otherwise fewer come out than there were, however many rounds follow. |
| Draining.NothingLostIff | internal/watch/watch.go:62-69 | What a call leaves is what later calls still see, exactly if the backlog fits the limit or the first pull request beyond it merged later than the last within it. |
| Draining.TieIsLost | internal/watch/watch.go:62-69 | Two merged at the same moment, a limit of one: after the first, nothing is due. |
| Reconcile.Tokenize | internal/reconcile/reconcile.go:81-88 | The set of the lower-case pieces of a name between spaces and dashes. |
| Reconcile.TokensAreFields | internal/reconcile/reconcile.go:81-88 | A token of a name is exactly one of its longest runs without dash or white space, with A to Z in lower case. |
| Reconcile.Jaccard | internal/reconcile/reconcile.go:90-106 | The counting loop divides the shared tokens by all of them; zero if either set is empty. |
| Reconcile.Classify | internal/reconcile/reconcile.go:60-79 | Duplicate exactly for a name in the index, with the first such entry; else overlaps exactly if some entry shares at least half of all tokens, with the first of the most similar; else novel with no entry. |
| Reconcile.GrowingIndex | internal/reconcile/reconcile.go:60-79 | A larger index never turns a duplicate into anything else nor an overlap into something new. |
| Reconcile.OrderPlaysNoPart | internal/reconcile/reconcile.go:60-79 | The decision depends on the set of names in the index only. |
| Reconcile.SameWordsOverlap | internal/reconcile/reconcile.go:60-88 | A name with the same words as an entry, at least one, whatever their case, order, number and separators, is never novel. |
| Reconcile.AlikeOverlaps | internal/reconcile/reconcile.go:60-88 | In particular one that differs from an entry only in case and in dashes for white space. |
| Reconcile.OverlapsIff | internal/reconcile/reconcile.go:60-79 | A name not in the index overlaps exactly if with some entry it shares at least as many words as stand in only one of the two. |
| Reconcile.NoneSharesMore | internal/reconcile/reconcile.go:64-74 | No entry shares a larger part of all words than the one that is returned. |
| Pipeline.Report.Add | internal/pipeline/pipeline.go:84-92 | One more rejection, under the lesson's name; the extract-error counter follows its reason. |
| Pipeline.Record | internal/pipeline/pipeline.go:84-87 | Nothing is recorded without a report. |
| Pipeline.ProcessLesson | internal/pipeline/pipeline.go:143-188 | Count, report and forge after one lesson, stage by stage. |
| Pipeline.ProcessBodies | internal/pipeline/pipeline.go:129-134 | The bodies of one pull request are processed in order under indices from 1. |
| Pipeline.Run | internal/pipeline/pipeline.go:98-137 | In both modes, the lessons of the run processed in order; it fails exactly if the watcher or, in once mode, the lesson source does. |
| Intake.WatchModeTakes | internal/pipeline/pipeline.go:116-134 | In watch mode the lessons are exactly the bodies of the watched pull requests that are not skipped and whose lessons can be read, pull requests as watched and bodies as read, under the number, the index from 1 and the merge commit. |
| Intake.InTheRunIff | internal/pipeline/pipeline.go:116-134 | An item is in the run exactly if it is such a body. |
| Intake.OnceModeTakes | internal/pipeline/pipeline.go:101-114 | In once mode they are exactly the bodies of source 0, under pull request 0 and "smoke". |
| Intake.WhyTurnedAway | internal/pipeline/pipeline.go:143-175 | Each reason has its cause, and a lesson with none of these causes goes on under skill name and redacted text, however similar to a published skill. |
| Intake.WhatTheReportSays | internal/pipeline/pipeline.go:152-175 | The detail is empty, the gate's reasons with commas between them, the verifier's name or the skill's, by reason. |
| Intake.OneLessonAdds | internal/pipeline/pipeline.go:177-187 | A lesson that goes on is counted if its emission succeeds, and is otherwise reported as an emission error. |
| Intake.DryReportIs | internal/pipeline/pipeline.go:98-188 | A dry run reports exactly the lessons turned away, in the order of the run, and counts the others. |
| PipelineLaws.OneOutcome | internal/pipeline/pipeline.go:143-188 | Each lesson is either counted or rejected once under its own name. |
| PipelineLaws.Conservation | internal/pipeline/pipeline.go:98-188 | Candidates and rejections add up to the lessons processed, and the extract-error counter is the number of rejections with that reason. |
| PipelineLaws.DryRunIsFaithful | internal/pipeline/pipeline.go:177-187 | A dry run's report is the real run's without the emission errors, its count the real count and those; it sends the forge nothing. |
| PipelineLaws.RunTwice | internal/pipeline/pipeline.go:98-188 | With a forge that works, the same run again changes nothing on it and returns the same count and report, also when lessons share a fingerprint. |
| PipelineLaws.RunIsVetted | internal/pipeline/pipeline.go:159-187 | Whatever the network does, every draft a run opens follows the commit of its file, and both are those of one of the run's lessons, on its branch and path, past both gates and the verifier, no duplicate. |
| PipelineLaws.RunPublishes | internal/pipeline/pipeline.go:159-187 | No structural pattern or deny-list term matches, tokens set aside, in any file a run publishes or in any description but for its marker; without a deny-list the whole description is so exactly if the fingerprint passes the gate. |
| Leaks.RedactedLessonLeaks | internal/pipeline/pipeline.go:145-187 | For every access key there is a lesson that, whatever the extractor makes of it, is published in a description the gate refuses, if it gets as far as the forge. |
| Leaks.LeakHappens | internal/pipeline/pipeline.go:98-187 | Such a run, with a harmless extractor on an empty forge. |
| PipelineLaws.RunKeepsOneDraft | internal/pipeline/pipeline.go:98-188 | Over whole runs no fingerprint gets a second draft. |
| PipelineLaws.RunItemsDistinct | internal/pipeline/pipeline.go:98-137 | When the watcher names no pull request twice, all lessons of a run have their own branch and path. |

## Left out

- RedactIsIdempotent: a sufficient condition, not a necessary one; a second run that cuts the tokens differently may still find nothing, depending on what the uncut remainder spells. Two families of texts show what fails without it.
- RedactIsFixpoint, NoHitsIffUnchanged, SafeIffUnchanged, AlignedIffNoArnReaches, RedactIsIdempotent, MatchesMeetTokens: for NUL-free text, as the sentinel's declaration assumes (internal/redact/redact.go:72), and without a deny-list, as wired.
- New: deny-list terms are taken to be non-empty; an empty one would make the program's alternation match everywhere.
- NameIs, FirstTermIsFound, Tokenize: case folding beyond ASCII; under `(?i)` Go also folds U+017F to s and U+212A to k, and strings.ToLower folds all of Unicode.
- DescriptionIsCleanIff, RunPublishes: the exact condition is for the wired, empty deny-list; a deny-list term may match in the marker's own words.
- DenyListUncovers: for terms without a dot, since one with a dot may be part of an allow-listed token and never be looked for; TermKeepsClearIff has no such restriction but speaks of the deny-list pass alone.
- TermKeepsClearIff: for a deny-list of one term; in a longer one a term listed earlier can keep it from matching. GentleTermsKeepClear and GentlePassIsComplete speak of every list.
- CommitFile, CreateDraft: references, the base branch, the draft flag and updates of an existing file belong to the hosting service; the forge here is a log of what it did, newest first when listed. A request still in flight when its process crashes and the lock passes on is not modelled, nor are people who edit a marker out of a body.
- Open, Put: creating directories, file modes and failing reads; a file that does not exist reads as empty.
- Lock: its no-op variant for systems without flock.
- MergedSince: the lister is asked once and its answer is taken as it is; that it stops early (internal/watch/github.go:49) is not modelled, so Drains, DrainsInOrder and DrainsIff speak of a complete lister.
- SortByMergedAt: the library's sorting algorithm; an insertion sort stands for it, and nothing relies on the order of equal merge times.
- Jaccard: real division; for sets of fewer than 2^26 tokens the program's floating-point comparisons come out the same.
- Fingerprint: hashing; hashes are hexadecimal texts. Times are integers, 0 the zero time.
- encoding/json: the demands of LedgerLog.Faithful stand for it.
- Run: the extractor, the verifier, the lesson source, the watcher and the prefilter are arbitrary deterministic functions; contexts and cancellation are left out.
- The classification of upstream errors (internal/pipeline/pipeline.go:190-230): one branch a class. An emission error always gets the class of unknown errors here, since the emitter wraps none of the model interface's.
- Claude prompts and clients, the skill creator, configuration, logging, flags and wiring: plumbing around the above.
