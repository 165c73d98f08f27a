# Swearjar in Dafny

A model of the matching engine of the `Swearjar` Ruby class (`lib/swearjar.rb`).

`scan` walks a string in three phases and yields one event per match. An event holds the matched text, its character offset, and the matched type (a list of labels, or `nil` on a miss). The three phases are:
- **Words.** Word tokens are found with `\b[a-zA-Z-]+\b` and looked up with a plural fallback.
- **Emoji.** Emoji graphemes are looked up by their first code point.
- **Regex rules.** Configured regular expressions run rule by rule.

Three public operations fold over that stream:
- `profane?` answers whether any event has a type.
- `scorecard` counts the hits per label.
- `censor` splices a masked copy of each hit into a copy of the input.

`load_file` fills the two tables the scan reads, entry by entry.

The modules follow the program's structure:
- `WordScan` is the word tokeniser. It holds the regular expression read declaratively (`IsMatch`) and the backtracking scan (`MatchAt`, `TokensFrom`).
- `WordLookup` is the `downcase` / `sub(/s\z/)` / `sub(/es\z/)` fallback chain.
- `Codepoints` holds `unicode_to_emoji` and `emoji_without_skin_tone`, with `String#hex` and `Integer#to_s(16)`.
- `Table` is `load_file`'s table building. `@hash` is a `map`; `@regexs` is an insertion-ordered list of rules keyed by pattern.
- `Events` states, as functions, the event stream `scan` yields.
- `Consumers` states what `profane?`, `scorecard` and `censor` compute from the stream.
- `Jar` is the class `Swearjar`. Its fields `hash` and `regexs` are updated by `LoadFile`, whose loaders loop over the entries. `Scan`, `IsProfane`, `Scorecard` and `Censor` call the loops of the module: `ScanWords`, `HasHit`, `CountEvents` with `CountLabels`, and `CensorLoop`. The class methods `ScanEmoji` and `ScanRegexps` hold the other scan loops. Each loop is proved equal to the functions of `Events` and `Consumers`.
- `Scenarios` works through concrete inputs: the tokeniser's edge cases, a tally and a censored sentence.

The emoji matcher (the `emoji_regex` gem) and Ruby's regular-expression engine for the configured patterns are not modelled. Their matches come in as parameters: `emoji` is one list of `Match(text, offset)`, and `found` holds one list per configured rule, in rule order.

## Model

| member | source | states |
|---|---|---|
| WordScan.MatchAt | lib/swearjar.rb:8 | At a start position the matcher returns a match of `\b[a-zA-Z-]+\b` if one exists, and it is the longest one: every match starting there ends no later |
| WordScan.TokensFrom | lib/swearjar.rb:73 | The tokens of `String#scan` lie inside the string, are nonempty, start at or after the scan position, and come left to right without overlapping |
| WordScan.TokensFromSound | lib/swearjar.rb:8 | Every emitted token is a match of the word regular expression: a nonempty run of ASCII letters and hyphens with a word boundary at both ends |
| WordScan.TokensFromLongest | lib/swearjar.rb:8 | Every token is the longest match at its start position |
| WordScan.TokensFromComplete | lib/swearjar.rb:73 | Nothing is missed: every position where a match could start lies inside some emitted token |
| WordScan.TokensLeftmost | lib/swearjar.rb:73 | No match starts between two consecutive tokens or after the last one, so each token is the leftmost match after the previous one |
| Chars.DowncaseChar | lib/swearjar.rb:75 | ASCII `downcase` of one character: upper-case letters become lower-case, every other character is unchanged |
| WordLookup.Downcase | lib/swearjar.rb:75 | `word.downcase` keeps the length and downcases each character in place |
| WordLookup.StripSuffix | lib/swearjar.rb:76-77 | `sub(/suffix\z/, '')` removes the suffix when the word ends with it and otherwise returns the word unchanged |
| WordLookup.FirstHit | lib/swearjar.rb:75-77 | An or-chain of table reads: `None` exactly when no key is present; otherwise the value of the first present key |
| WordLookup.LookupWordFirstHit | lib/swearjar.rb:75-77 | The contract of `LookupWord`, the or-chain itself: the lookup of a token equals the first hit over the downcased token, then it without a trailing "s", then it without a trailing "es" |
| WordLookup.LookupIgnoresCase | lib/swearjar.rb:75-77 | A token and its downcased form look up the same |
| WordLookup.LookupPluralS | lib/swearjar.rb:76 | If the lower-case stem is in the table and stem+"s" is not, then stem+"s" hits the stem's type |
| WordLookup.LookupPluralEs | lib/swearjar.rb:77 | If the lower-case stem is in the table and neither stem+"es" nor stem+"e" is, then stem+"es" hits the stem's type |
| WordLookup.LookupNoSuffix | lib/swearjar.rb:75-77 | A token whose downcased form does not end in "s" looks up only that form |
| WordLookup.DowncaseAppend | lib/swearjar.rb:75 | Downcasing distributes over appending a lower-case suffix |
| Codepoints.ToHex | lib/swearjar.rb:103 | `to_s(16)` prints nonempty lower-case hex digits with no leading zero, which read back (`String#hex`) as the number |
| Codepoints.ToHexOfHexValue | lib/swearjar.rb:98 | The converse round trip: a canonical hex string is exactly what `to_s(16)` prints for its value |
| Codepoints.UnicodeToEmoji | lib/swearjar.rb:97-99 | `[hex.hex].pack('U')` is the one-character string whose code point is the value of the hex digits |
| Codepoints.EmojiWithoutSkinTone | lib/swearjar.rb:101-104 | The lookup key of a grapheme is its first code point alone, so a one-code-point emoji is its own key |
| Codepoints.SkinToneShareKey | lib/swearjar.rb:101-104 | A base emoji and the same emoji followed by a skin-tone modifier have the same key, the base itself |
| Table.PutAll | lib/swearjar.rb:62-64 | After writing the entries, the hash holds exactly the old keys plus every entry key |
| Table.PutAllLastWins | lib/swearjar.rb:62-64 | The last entry written for a key decides that key's type |
| Table.PutAllKeepsOthers | lib/swearjar.rb:62-64 | Keys no entry mentions keep their old type |
| Table.Upsert | lib/swearjar.rb:59 | Assigning to the ordered regex hash updates an existing pattern in place without moving it; a new pattern is appended at the end; patterns stay distinct |
| Table.PutRules | lib/swearjar.rb:58-60 | After loading the regex entries, the existing rules keep their positions, the set of patterns is the old one plus the entry patterns, and patterns stay distinct |
| Table.PutRulesLastWins | lib/swearjar.rb:58-60 | The last entry for a pattern decides that rule's type |
| Table.PutRulesKeepsOthers | lib/swearjar.rb:58-60 | Rules that no entry mentions are unchanged |
| Table.PutRulesOrder | lib/swearjar.rb:58-60 | New patterns keep their first-insertion order: a pattern first inserted earlier sits before one first inserted later |
| Table.EmojiOverridesSimple | lib/swearjar.rb:62-69 | Simple and emoji entries share one hash and emoji entries are written last, so a decoded emoji key that equals a simple key gets the emoji entry's type |
| Events.ScanLength | lib/swearjar.rb:72-93 | `scan` yields one event per word token, one per emoji grapheme and one per regex match of every rule |
| Events.ScanWordAt | lib/swearjar.rb:73-79 | The word events come first, in token order |
| Events.ScanEmojiAt | lib/swearjar.rb:81-85 | The emoji events come next, in grapheme order; each is looked up by the key without skin tone |
| Events.ScanRegexAt | lib/swearjar.rb:87-92 | The regex events come last, grouped by rule in rule order: the `j`-th match of rule `r` comes after every match of the earlier rules, whatever the offsets. Each carries its rule's type |
| Events.WordEventAt | lib/swearjar.rb:73-79 | A word event carries the original-case token and the offset where it stands in the input. The token is a match of the word regular expression, and the event's type is the fallback lookup of that token |
| Events.WordEventsOrdered | lib/swearjar.rb:73-74 | Word events come left to right and do not overlap |
| Events.ScanLocated | lib/swearjar.rb:72-93 | Every event's text stands at its offset in the input, given that the emoji and regex matchers report their matches where they found them |
| Consumers.NoHitNoOccurrences | lib/swearjar.rb:33-38 | With no hit in the stream, no label is counted |
| Consumers.OccurrencesWitness | lib/swearjar.rb:33-38 | A label that is counted comes from a hit whose type list contains it |
| Consumers.MaskedAt | lib/swearjar.rb:47 | `word.gsub(/\S/, mask)` with a one-character mask keeps the length, keeps whitespace and masks every other character |
| Consumers.SpliceLayout | lib/swearjar.rb:48 | `buf[pos, len] = rep` fails (IndexError) exactly when `pos` is past the end of the buffer. Otherwise the result keeps the characters before `pos`, then holds `rep`, then the characters after the replaced part (clipped to the end of the buffer); its length is the old length minus the replaced part plus the length of `rep` |
| Consumers.CensorClean | lib/swearjar.rb:43-51 | With no hit, `censor` returns its input unchanged, whatever the mask and block |
| Consumers.CensorMasks | lib/swearjar.rb:43-51 | With a one-character non-space mask and no block, `censor` keeps the input's length and changes nothing outside the hits. Inside any hit, including overlapping ones, each non-whitespace character becomes the mask and whitespace stays |
| Jar.Swearjar.constructor | lib/swearjar.rb:18-22 | `Swearjar.new` starts with empty tables and loads the file when one is given |
| Jar.Swearjar.LoadFile | lib/swearjar.rb:55-70 | `load_file` loads the regex rules, then the simple words, then the decoded emoji into one hash; patterns stay distinct |
| Jar.Swearjar.LoadRegexps | lib/swearjar.rb:58-60 | The regex loop performs the ordered-hash assignments entry by entry and leaves `@hash` alone |
| Jar.Swearjar.LoadEntries | lib/swearjar.rb:62-69 | The simple and emoji loops write `@hash[key] = type` entry by entry and leave `@regexs` alone |
| Jar.Swearjar.Scan | lib/swearjar.rb:72-93 | The events the method yields are exactly the specified stream: words, then emoji, then regex rules |
| Jar.ScanWords | lib/swearjar.rb:73-79 | The `String#scan` loop (leftmost match, resume after it, look each token up) yields exactly the word events |
| Jar.Swearjar.ScanEmoji | lib/swearjar.rb:81-85 | The emoji loop yields exactly the emoji events |
| Jar.Swearjar.ScanRegexps | lib/swearjar.rb:87-92 | The nested rule and match loops yield exactly the regex events |
| Jar.Swearjar.IsProfane | lib/swearjar.rb:24-28 | `profane?` is true if and only if some event of the scan has a type |
| Jar.HasHit | lib/swearjar.rb:26-27 | The early-return loop is true if and only if some event has a type |
| Jar.Swearjar.Scorecard | lib/swearjar.rb:30-41 | Each label maps to the number of times it occurs in the type lists of hits, counted with multiplicity. Labels never hit are absent, and with no hit the card is empty |
| Jar.CountEvents | lib/swearjar.rb:32-40 | The tally loop over the events counts every label of every hit; every stored count is positive |
| Jar.CountLabels | lib/swearjar.rb:35-38 | `scorecard[type] = 0 unless key?; scorecard[type] += 1` over one type list adds that list's occurrences of each label |
| Jar.Swearjar.Censor | lib/swearjar.rb:43-51 | The mask defaults to `"*"` (line 7). `censor` gives the result of splicing each hit's replacement in at its original offset, or IndexError. With no hit it gives the input. With a one-character non-space mask, no block and located matches, it gives the masked view of the input |
| Jar.CensorLoop | lib/swearjar.rb:44-50 | The loop over the buffer computes the splice fold and stops at the first IndexError |
| Jar.CensorErrSticks | lib/swearjar.rb:48 | Once a splice has raised, the result of `censor` is that error |
| Scenarios.NoTokenBeforeDigits | lib/swearjar.rb:8 | "abc123" yields no token, because digits are word characters |
| Scenarios.HyphenAfterDigit | lib/swearjar.rb:8 | "1-abc" yields the single token "-abc" |
| Scenarios.SampleScorecard | lib/swearjar.rb:30-41 | With "damn" as profanity and "hell" as mild, "damn damn hell" counts profanity twice and mild once, and no other label |
| Scenarios.SampleCensor | lib/swearjar.rb:43-51 | With the default mask, "you damn fool" becomes "you **** fool" |
| Scenarios.PluralExamples | lib/swearjar.rb:75-77 | With "damn" in the table, "damns" and "damnes" hit it and "damned" misses |
| Scenarios.CaseExamples | lib/swearjar.rb:75 | "DAMN" and "Damn" hit the entry for "damn" |

## Left out

- `Swearjar.default`, `Swearjar.from_language` and `YAML.load_file` are file I/O and parsing. `LoadFile` takes the parsed `regex`, `simple` and `emoji` entry lists, each of which may be missing.
- The emoji matcher (`EmojiRegex::Regex`) and Ruby's regular-expression engine for the configured patterns are foreign code. Their match lists are parameters. Case-insensitive compilation (`Regexp.new(pattern, "i")`) is the engine's concern; rules are keyed by pattern text.
- `String#scan` yields arrays of capture groups, not the whole match, when a configured pattern has groups. This is not modelled: a regex event carries the whole match.
- Regex matches are taken in the order the engine reports them, which is ascending offset within a rule. This order comes from the engine and is not proved.
- Word characters for `\b` are ASCII letters, digits and `_`. Non-ASCII letters, which Ruby's `\b` also treats as word characters, are not.
- `downcase` is ASCII only. Tokens of `\b[a-zA-Z-]+\b` are ASCII, so this matters only for keys, and keys are compared as given.
- `to_s` coercion of `nil` or non-string arguments is not modelled; inputs are strings. In the source, `censor` scans the uncoerced argument (line 45), so `nil` there is not the same as an empty string.
- Codepoints.UnicodeToEmoji: it requires a string of hex digits whose value is a Unicode scalar value. `String#hex` prefixes, signs and invalid digits, and `pack('U')` of surrogates or out-of-range values, are not modelled.
- Codepoints.EmojiWithoutSkinTone: it requires a nonempty grapheme; `unpack` on an empty string is not modelled, and the emoji matcher never reports an empty match.
- Jar.Swearjar.Censor: the mask property is proved only for a one-character non-space mask with no block. The splice loop itself is modelled for any mask and block, including length-changing replacements whose later offsets drift against the mutated buffer and may raise IndexError. A multi-character mask also passes through `gsub`'s replacement-string escapes (`\0`, `\\`), which are not modelled: the mask is inserted literally.
- Jar.Swearjar.IsProfane: `profane?` returns from inside the block at the first hit, so later phases never run. The model scans fully and then stops at the first hit; only the result is modelled, not the work skipped.
- `scan` as an iterator calling a block is modelled as the list of events it would yield. `profane?`, `scorecard` and `censor` fold over that list.
- `Regexp.new(pattern, "i")` raises `RegexpError` on a malformed pattern during `load_file`. Patterns are not compiled here, so `LoadRegexps` accepts every pattern.
- `String#scan` raises `ArgumentError` on a string with invalid encoding. Strings here are sequences of characters, which cannot represent such input.
