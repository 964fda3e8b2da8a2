# Legal-advice chat client: verified model of its pure logic

The application is a mobile client for a legal-advice chatbot. Almost all of it
is screens and HTTP calls. This project models the three pieces of it that are
plain, sequential logic, and proves what they do:

- **`utils/helpers.ts`** (module `Helpers`):
  - `truncateText`.
  - `isValidEmail`, with its regular expression written as an explicit character scan and as a declarative split at `@`.
  - `checkPasswordStrength`.
  - The relative-time branches of `formatDate`. The elapsed time `diff` is an input instead of a clock read.
- **`contexts/ChatContext.tsx`** (module `ChatContext`): the chat-session list with `createChat` and `updateChatTitle`. Both are pure functions over `seq<ChatSession>`, and the clock readings are parameters.
- **`app/search.tsx`** (module `Search`):
  - The guard that skips a search.
  - The session-title map.
  - The conversion of the backend's message records into the rows the screen shows.
  - The backend's answer is an input: either a failure or a message list.

Two support modules hold what these share:
- `Text` covers the JavaScript whitespace class, which `trim` and the regex escape `\s` both use. It also covers `trim` itself and the decimal rendering of integers done by `Number.prototype.toString`. That rendering is used for message ids, chat ids and the minute/hour/day counts.
- `Wrappers` has the `Option` type that stands for `null`.

Strings are sequences of Unicode scalar values. The search guard measures the query in UTF-16 code units, as JavaScript does.

Every operation is paired with something independent of its body:
- `isValidEmail`: a state-machine scan, proved equal to the declarative shape of the pattern.
- Decimal rendering: a parser, with a round-trip proof.
- `formatDate` labels: a label reader, proved to recover the bucket.
- `updateChatTitle`: idempotence and a "nothing else changes" proof.
- The title map: a "last entry in list order wins" characterisation.

Two facts about `contexts/ChatContext.tsx` shape the model:
- `createChat` builds the new session locally from `Date.now()`, with no backend call.
- The file has no operation that deletes a chat.

## Model

| member | source | states |
|---|---|---|
| `Helpers.TruncateText` | utils/helpers.ts:59-62 | A text that fits in `maxLength` comes back unchanged. A longer one becomes its first `maxLength` characters followed by `...`, so the result has `maxLength + 3` characters; a negative `maxLength` keeps no characters. |
| `Helpers.TruncateIdempotent` | utils/helpers.ts:59-62 | Truncating an already truncated text with the same `maxLength` changes nothing. |
| `Helpers.IsValidEmail` | utils/helpers.ts:67-70 | The scan accepts an address exactly when it is a non-empty local part, one `@`, and a domain. Neither part contains white space or `@`, and the domain has a `.` with at least one character on each side. |
| `Helpers.ScanMatchesPattern` | utils/helpers.ts:68 | The left-to-right state machine reaches its accepting state on exactly the strings that split as `local@domain` with the conditions of the pattern. |
| `Helpers.ShapeSplitsAtFirstAt` | utils/helpers.ts:68 | Any split of an accepted address falls at its first `@`. |
| `Helpers.EmailHasOneAt` | utils/helpers.ts:68 | An accepted address contains exactly one `@`. |
| `Helpers.CheckPasswordStrength` | utils/helpers.ts:75-89 | Fewer than 6 characters is weak and 6 to 9 is medium, whatever the content. From 10 characters on, the verdict is strong with three or four of the classes upper, lower, digit and special, and weak with at most one. |
| `Helpers.StrengthByClasses` | utils/helpers.ts:79-88 | For 10 or more characters: weak exactly when at most one class occurs, and strong exactly when at most one class is missing. |
| `Helpers.CountTrueMonotone` | utils/helpers.ts:84 | Counting the true flags is monotone: turning flags on never lowers the count. |
| `Helpers.MoreClassesNeverWeaker` | utils/helpers.ts:84-88 | Between two passwords of 10 or more characters, the one that has every class the other has is never rated weaker. |
| `Helpers.AppendNeverWeakens` | utils/helpers.ts:79-88 | Appending characters to a password of 10 or more characters never lowers its rating. |
| `Helpers.TenthCharacterCanWeaken` | utils/helpers.ts:76-88 | Nine lower-case letters rate medium, but ten rate weak, because the content only counts from ten characters on. |
| `Helpers.ElapsedBucket` | utils/helpers.ts:13-40 | Exactly one label applies to every `diff`: just now below one minute (negative `diff` included), then minutes, hours, days, and the calendar date from one week on. Each count is the number of whole units elapsed, 1..59 minutes, 1..23 hours or 1..6 days. |
| `Helpers.BucketMonotone` | utils/helpers.ts:13-33 | An older time never gets a more recent label: the unit grows, or stays the same with a count that does not fall. |
| `Helpers.FormatDate` | utils/helpers.ts:7-41 | Below one minute the label is `방금 전`; from one week on it is the calendar date the locale library renders. The minute, hour and day labels in between are fixed by `Helpers.FormatDateRoundTrip` together with `Helpers.RelativeLabelUnique`. |
| `Helpers.FormatDateRoundTrip` | utils/helpers.ts:13-33 | Every label for a time under a week old reads back as the bucket and count it was made from. |
| `Helpers.RelativeLabelUnique` | utils/helpers.ts:18-33 | For a time under a week old, the label is the only string that reads back as its bucket and count. The count is therefore written in canonical decimal, with no leading zero, as the template `${minutes}분 전` and its hour and day counterparts produce. |
| `Helpers.CountBeforeCanonical` | utils/helpers.ts:20 | The label reader accepts a count only in canonical decimal form, so a string that reads as count `n` before a unit suffix is exactly the decimal rendering of `n` followed by that suffix. |
| `Helpers.FormatDateDistinguishesBuckets` | utils/helpers.ts:13-33 | Two times under a week old share a label only when they fall in the same bucket with the same count. |
| `Text.Trim` | app/search.tsx:53 | The result is the slice of the query left once all leading and trailing JavaScript white space is removed. It neither starts nor ends with white space. |
| `Text.TrimIdempotent` | app/search.tsx:53 | Trimming a trimmed query changes nothing. |
| `Text.TrimEmptyIff` | app/search.tsx:53 | A query trims to empty exactly when it consists of white space only. |
| `Text.IntToDecimal` | app/search.tsx:65 | The rendering is non-empty and starts with `-` exactly for negative numbers. The rest is a run of decimal digits that starts with `0` only when it is the single digit of zero. |
| `Text.Utf16Length` | app/search.tsx:53 | A string's length in UTF-16 code units lies between its number of characters and twice that, and equals the number of characters when no character lies outside the Basic Multilingual Plane. |
| `Text.CanonicalDigitsRoundTrip` | app/search.tsx:65 | A run of digits with no superfluous leading zero is the rendering of the number it denotes, so the rendering is the only canonical spelling of each number. |
| `Text.DecimalRoundTrip` | app/search.tsx:65 | The decimal rendering of any integer id parses back to that integer. |
| `Text.DecimalInjective` | contexts/ChatContext.tsx:25 | Distinct clock readings render as distinct ids. |
| `ChatContext.CreateChat` | contexts/ChatContext.tsx:24-35 | The list grows by one. Its head is a session whose id is the returned id, with title `새로운 상담` and the second clock reading as its update time. Its tail is the previous list. The returned id reads back as the first clock reading. |
| `ChatContext.CreateChatFreshId` | contexts/ChatContext.tsx:25 | When every existing id came from an earlier clock reading, the new id is not already in the list. |
| `ChatContext.SameClockDuplicatesId` | contexts/ChatContext.tsx:25-33 | Two chats created within the same millisecond get the same id, so the list can hold duplicate ids. |
| `ChatContext.UpdateChatTitle` | contexts/ChatContext.tsx:38-44 | The length is kept. Every entry whose id matches, duplicates included, gets the new title and the supplied time, and every other entry is unchanged. |
| `ChatContext.UpdateKeepsIds` | contexts/ChatContext.tsx:39-43 | The sequence of ids, in order, is the same before and after a rename. |
| `ChatContext.UpdateAbsentId` | contexts/ChatContext.tsx:40-42 | Renaming an id that is not in the list leaves the whole list unchanged. |
| `ChatContext.UpdateIdempotent` | contexts/ChatContext.tsx:39-43 | Renaming twice with the same id, title and time gives the same list as renaming once. |
| `ChatContext.CreateThenRename` | contexts/ChatContext.tsx:24-44 | Renaming a freshly created chat replaces only the new head entry and leaves the previous list intact. |
| `Search.SearchRequestFor` | app/search.tsx:53-61 | No search is issued exactly when the user id is missing or empty or the trimmed query has fewer than 2 UTF-16 code units. Otherwise the request carries the user id and the trimmed query. |
| `Search.SingleCharacterKeyword` | app/search.tsx:53 | A query that is one non-blank character is searched exactly when that character is outside the Basic Multilingual Plane, because it then counts as two code units. |
| `Search.BlankQueryNotSearched` | app/search.tsx:53-56 | A query of white space alone never reaches the backend. |
| `Search.TitleMap` | app/search.tsx:50 | The map's keys are exactly the session ids. When several sessions share an id, the map holds the title of the last of them in list order. |
| `Search.LastWithIdUnique` | app/search.tsx:50 | Only one session can be the last with a given id. |
| `Search.TitleFor` | app/search.tsx:70 | The title is never empty. It is the map's entry for the session id when that entry exists and is non-empty, and `이전 채팅` otherwise. |
| `Search.TitleForShowsLastSession` | app/search.tsx:70 | The title shown is that of the last session with the message's session id when that title is non-empty. Otherwise it is `이전 채팅`, which covers both a missing session and an empty title. |
| `Search.ToDisplay` | app/search.tsx:64-71 | A row keeps the message's text and session id, whose id parses back to `MSG_ID`, and is a question exactly when the sender is `USER`. Its session title is the map's entry for the session id when that entry exists and is non-empty, and `이전 채팅` otherwise. |
| `Search.ToDisplayList` | app/search.tsx:64-71 | One row per message, in the same order, each related to its message as `ToDisplay` states. |
| `Search.SearchResults` | app/search.tsx:52-80 | A skipped search and a failed search both leave the list empty. Otherwise there is one row per returned message, in order, with its text, session id, question/answer kind, id and session title as above. |

## Left out

- Rendering, styles, navigation and every visual component: these are user interface, not logic.
- The 300 ms debounce, the timer cleanup and the `loading` flag in `app/search.tsx`: they are event-loop timing.
- The backend call in `app/search.tsx` is an input, `SearchResponse`. `SendTime` is carried but never read by the screen.
- `contexts/AuthContext.tsx` is not part of this model. It is asynchronous glue over device storage and network calls. The search takes its user id as an `Option<string>`.
- `constants/api.ts` is not part of this model: it only builds URLs for a remote backend.
- `formatFileSize` works on floating-point logarithms and rounding.
- `generateId` reads the clock and a random number generator.
- The `toLocaleDateString` branch of `formatDate` is a locale library call. Its output is a parameter of `Helpers.FormatDate`.
- `useChat`'s error when no provider is mounted is framework wiring.
- Clock reads are parameters. `formatDate` takes the elapsed `diff`, `createChat` takes its two `Date.now()` readings, and `updateChatTitle` takes one reading `now`.
- ChatContext.UpdateChatTitle: one reading `now` stands for the separate `Date.now()` call made for each matching entry (contexts/ChatContext.tsx:41). When several entries share the id, the source may give them times a few milliseconds apart, while the model gives them all `now`. `ChatContext.UpdateIdempotent` likewise holds only when both renames see the same reading.
- Helpers.ElapsedBucket: `diff` is an integer. A `NaN` difference from an invalid timestamp, which falls through every comparison to the date branch, is not modelled.
- Helpers.TruncateText: lengths count Unicode scalar values, while JavaScript counts UTF-16 code units, so texts with characters outside the Basic Multilingual Plane are cut at a different place. A fractional `maxLength` is not modelled.
- Helpers.CheckPasswordStrength: the 6- and 10-character thresholds count Unicode scalar values, not UTF-16 code units.
- Text.IntToDecimal: models `toString` for integers only. Message ids large enough for exponent notation (10^21 and up) or fractional ids are not modelled.
