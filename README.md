# email-forward-parser: the splitter and the forward-resolving client in Dafny

This project models two parts of the Python package `emailforwardparser`.

**The string utilities of `utils.py`.**
- `split_with_regexp` is the splitter that the forward detector runs over email bodies. It keeps every regex match, and every capturing group whose span differs from the span just before it, in the output, in order, between the texts that separate them.
- `find_all_string_submatch_index` flattens the spans of the matches.
- `preprocess_string` is a character filter.

**The client of `client.py`.** It takes a parsed email and finds the message that carries a forwarded email: the email itself, or one `.eml` attachment inside it. It then:
1. asks the forward classifier for the original email's metadata;
2. rebuilds the original email from that metadata;
3. returns a dict with the destination address (`Send-To`) and the message.

The regular-expression engine is an input. What `pattern.finditer(s)` yields is a `seq<seq<Span>>`: one span per group, whole match first, as `match.span(g)` gives them. The other external pieces are parameters:
- the forward classifier `fp.get_forwarded_metadata` (`Client.Classifier`);
- the sender-address regular expression (`Client.AddressFinder`);
- the Unicode category table (`category: char -> string`).

A parsed email is a `Mime.Message` tree. It holds a header list, the content type and file name that the email library derives, and a payload: a string, a list of sub-messages, or nothing. `walk()` is a depth-first pre-order walk that starts at the root. `get(name)` returns the first header whose name matches ignoring ASCII case.

Most imperative routines of the source are methods with loops. Each one is proved equal to a specification function, and the properties are proved as lemmas about that function:
- `SplitWithRegexp`, `FindAllStringSubmatchIndex` and their inner loops;
- `GetBody` and `GetEmlAttachment`;
- `FormatAddresses`, `SetHeaders` and `BuildOriginalEmail`;
- `GetDict`, `GetOriginalMetadata` and `GetOriginalEml`.

The message being rebuilt is a class, `Client.OutMessage`, whose header and part lists only grow.

Files:
- `wrappers.dfy`: `Option` and `Result`.
- `text.dfy`: `str.strip`, substring `in`, `str.endswith` and ASCII lower-casing.
- `mime.dfy`: the message tree, `walk`, `get`.
- `utils.dfy`: `utils.py`.
- `client.dfy`: `client.py`.

Where the code differs from what its documentation suggests, the model follows the code:
- The split's output does not always join back to the input. It joins back when the retained spans tile the input (`Utils.SplitLossless`), in particular when every retained span is a whole-match span and the matches are increasing and do not overlap (`Utils.SplitLosslessWholeMatches`). A non-empty group strictly inside its match is emitted a second time, which breaks it (`Utils.GroupInsideMatchRepeats`).
- A multipart rebuild writes the CC header twice. `_set_headers` writes it once and `_build_original_email` writes it again. With an empty cc there is no CC line.
- The part filter drops every top-level text/plain part that is not an attachment, not only the first one.
- A multipart message with no qualifying body part does not yield `""`. It raises, because `body` is unbound (`Client.ClientError.UnboundBody`).
- `get_original_metadata_from_file` does not fall back to the `.eml` attachment (`Client.FromFileSkipsFallback`).
- `is_graphic` compares the category with one-letter codes, but `unicodedata.category` returns two-letter codes. With such a table no character is graphic, and `preprocess_string` only removes U+FEFF (`Utils.TwoLetterCategoriesOnlyRemoveMark`).

## Model

| member | source | states |
|---|---|---|
| Utils.IsGraphic | emailforwardparser/utils.py:4-6 | `is_graphic`: the character's category, from the `category` table, is one of the six one-letter codes as written; its consequence is `TwoLetterCategoriesOnlyRemoveMark` |
| Utils.KeepChars | emailforwardparser/utils.py:10 | the kept characters are at most as many as the input's, each satisfies the condition and occurs in the input; when every character satisfies it, the input comes back unchanged |
| Utils.KeepCharsCounts | emailforwardparser/utils.py:10 | every character that passes the test is kept exactly as often as it occurs in the input, and every other character is dropped |
| Utils.KeepCharsAppend | emailforwardparser/utils.py:10 | the comprehension works character by character in order: filtering a concatenation is concatenating the filtered halves, so the result is the ordered subsequence of passing characters |
| Utils.PreprocessString | emailforwardparser/utils.py:9-12 | the result is no longer than the input, contains no U+FEFF, and every character in it fails `is_graphic` and comes from the input |
| Utils.PreprocessCounts | emailforwardparser/utils.py:9-12 | every character that is neither graphic nor U+FEFF is kept exactly as often as it occurs in the input; all others are removed |
| Utils.PreprocessAppend | emailforwardparser/utils.py:9-12 | preprocessing keeps order: it distributes over concatenation, so the result is the ordered subsequence of kept characters |
| Utils.PreprocessIsOneFilter | emailforwardparser/utils.py:10-11 | the comprehension followed by the replace is one order-preserving filter: keep what is neither graphic nor U+FEFF |
| Utils.PreprocessIdempotent | emailforwardparser/utils.py:9-12 | preprocessing a preprocessed string changes nothing |
| Utils.TwoLetterCategoriesOnlyRemoveMark | emailforwardparser/utils.py:4-6 | when every category code has two letters, `is_graphic` is false for every character and preprocessing only removes U+FEFF |
| Utils.Flatten | emailforwardparser/utils.py:28-30 | a match with g spans flattens to 2g integers |
| Utils.FlattenAt | emailforwardparser/utils.py:28-30 | span g of a match sits at positions 2g and 2g+1 of the flat list, whole match first |
| Utils.PairsOfFlatten | emailforwardparser/utils.py:28-30 | flattening loses nothing: reading the integers back in pairs gives the spans |
| Utils.FindAllStringSubmatchIndex | emailforwardparser/utils.py:22-37 | the result holds the first n matches when 0 < n is less than the number of matches, and all of them otherwise; match k is the flattened spans of the k-th match |
| Utils.Bound | emailforwardparser/utils.py:74-79 | a slice bound inside the string is used as it is; every bound lands within the string |
| Utils.Slice | emailforwardparser/utils.py:74-79 | for in-range bounds `s[a:b]` is the subsequence from a to b |
| Utils.Retained | emailforwardparser/utils.py:53-63 | de-duplicating a match never lengthens it and always keeps the whole-match span first |
| Utils.RetainedExtend | emailforwardparser/utils.py:56-62 | a span is kept exactly when it differs from the span right before it in the original match |
| Utils.RetainedExamples | emailforwardparser/utils.py:54-63 | A,A,A keeps one span; A,B,A keeps all three |
| Utils.RetainedFromMatch | emailforwardparser/utils.py:53-63 | every retained span is a span of its match |
| Utils.AllRetainedFirst | emailforwardparser/utils.py:53-67 | the first retained span overall is the first match's whole span, the one `split_indices[0][0]` reads |
| Utils.AllRetained | emailforwardparser/utils.py:53-65 | the spans the emitting loop reads after de-duplication, match after match; `AllRetainedFirst` and `AllRetainedWholeOnly` state what they are |
| Utils.FlatPairsEqual | emailforwardparser/utils.py:58-60 | comparing neighbouring integer pairs is comparing neighbouring spans, in both directions |
| Utils.DropPairStep | emailforwardparser/utils.py:56-62 | one pass of the inner de-duplication loop: a pair is skipped exactly when it equals the pair before it, and the kept list then is the flattened retained spans of one more span |
| Utils.DedupPairs | emailforwardparser/utils.py:56-62 | the inner de-duplication loop read off the integers; `DedupPairsIsRetained` proves it equals flattening the retained spans, and `DropRepeatedPairs` is proved equal to it |
| Utils.DedupPairsIsRetained | emailforwardparser/utils.py:53-63 | de-duplicating the flat list is flattening the retained spans |
| Utils.DedupMatch | emailforwardparser/utils.py:53-63 | a flattened match has an even length, and de-duplicating it pair by pair gives the flattened retained spans |
| Utils.DropRepeatedPairs | emailforwardparser/utils.py:55-62 | the inner loop keeps each pair unless it equals the pair before it in the original list |
| Utils.DropRepeatedSpans | emailforwardparser/utils.py:53-65 | every match is replaced by its flattened retained spans, one entry per match |
| Utils.Split | emailforwardparser/utils.py:40-81 | the specification of `split_with_regexp`: `[s]` without matches, else the leading `""`, gap and span texts, trailing text; its properties are the `Split*` and `SpanTexts*` lemmas below and `SplitWithRegexp` is proved equal to it |
| Utils.SplitNoMatch | emailforwardparser/utils.py:44-45 | with no match the result is exactly `[s]` |
| Utils.FirstSpanTexts | emailforwardparser/utils.py:67-75 | the output after the optional leading `""` starts with the text before the first match (when non-empty), then that match's text |
| Utils.SplitMatchAtStart | emailforwardparser/utils.py:67-75 | when the first match starts at 0, the first string is `""` and the second is that match's text |
| Utils.SplitMatchAfterStart | emailforwardparser/utils.py:70-75 | when the first match starts later, the first string is the text before it and the second is its text |
| Utils.EndAfter | emailforwardparser/utils.py:73-76 | `prev_index` after the first n spans: 0 before any span, as set at utils.py:51, else the end of the last one; `EndAfterInRange` bounds it |
| Utils.SpanTexts | emailforwardparser/utils.py:70-76 | the texts the emitting loop appends for the first n spans; `SpanTextsEmpty`, `SpanTextsJoin` and `EmitSpans` state what it produces |
| Utils.SpanTextsEmpty | emailforwardparser/utils.py:70-76 | the emitting loop produces exactly as many `""` as there are empty spans: a gap text is emitted only when non-empty, and a span's text is empty exactly when the span is |
| Utils.SpanTextsEmptyStep | emailforwardparser/utils.py:73-75 | one more span adds one `""` when it is empty and none otherwise, whether or not a gap text precedes it |
| Utils.SplitEmptyStrings | emailforwardparser/utils.py:67-79 | the number of `""` in the result is one for a first match at offset 0 plus the number of empty retained spans, so no gap text and no trailing text is empty |
| Utils.SplitEmptyOnlyLeading | emailforwardparser/utils.py:67-79 | without empty retained spans the only `""` the result can hold is the leading one, at index 0, for a first match at offset 0 |
| Utils.SplitTrailingText | emailforwardparser/utils.py:78-79 | exactly one trailing string is added when the last span ends before the end of `s`, and it is the rest of `s` |
| Utils.EndAfterInRange | emailforwardparser/utils.py:76 | `prev_index` stays within the string when the spans do |
| Utils.SplitParts | emailforwardparser/utils.py:67-79 | the result is the optional leading `""`, then the gap and span texts, then the optional trailing text |
| Utils.SpanTextsJoin | emailforwardparser/utils.py:70-76 | over spans that follow each other without overlap, the emitted texts join to the input up to the last span's end |
| Utils.SplitLossless | emailforwardparser/utils.py:50-81 | when the retained spans follow each other without overlap, the result joins back to `s` |
| Utils.RetainedWholeOnly | emailforwardparser/utils.py:53-63 | a match whose groups all equal its whole span is retained as the whole span alone |
| Utils.AllRetainedWholeOnly | emailforwardparser/utils.py:53-65 | in that case the retained spans are the whole-match spans, one per match |
| Utils.SplitLosslessWholeMatches | emailforwardparser/utils.py:50-81 | with no groups, or groups that capture exactly the whole match, and increasing, non-overlapping in-range matches, the result joins back to `s` |
| Utils.GroupInsideMatchRepeats | emailforwardparser/utils.py:70-76 | the output of "ab" with match (0,2) and group (0,1) is `["", "ab", "a", "b"]`, which joins to "abab": losslessness fails for inner groups |
| Utils.GroupInsideRetained | emailforwardparser/utils.py:53-63 | an inner group differs from its whole span and is kept |
| Utils.EmitMatch | emailforwardparser/utils.py:71-76 | the inner emitting loop appends exactly the gap and span texts of one match's retained spans and leaves `prev_index` at the end of its last span |
| Utils.EmitStep | emailforwardparser/utils.py:71-76 | one pass of the inner emitting loop adds the gap text (when non-empty) and the span text of the next span and moves `prev_index` to its end |
| Utils.EmitSpans | emailforwardparser/utils.py:67-79 | the leading `""`, the outer emitting loop and the tail produce the shape `SplitParts` describes |
| Utils.SplitWithRegexp | emailforwardparser/utils.py:40-81 | the method returns exactly the specified split, with the dedup, leading-`""`, gap, span and tail rules above |
| Text.IsSpace | emailforwardparser/client.py:129-130 | `str.isspace()` on one character: the ASCII and Unicode whitespace that `strip()` removes; used by the strip lemmas below |
| Text.StripStart | emailforwardparser/client.py:129-130 | removing leading whitespace leaves a suffix of the input |
| Text.StripEnd | emailforwardparser/client.py:129-130 | removing trailing whitespace leaves a prefix of the input |
| Text.StripStartCutsSpace | emailforwardparser/client.py:129-130 | every character cut from the front is whitespace, and what is kept does not start with whitespace |
| Text.StripEndCutsSpace | emailforwardparser/client.py:129-130 | every character cut from the back is whitespace, and what is kept does not end with whitespace |
| Text.Strip | emailforwardparser/client.py:129-130 | `strip()`: leading then trailing whitespace removed; characterised by `StripIsTrimmedSlice` and `StripIdempotent` |
| Text.StripIsTrimmedSlice | emailforwardparser/client.py:129-130 | `strip()` is a slice of the input with only whitespace outside it and none at either end |
| Text.StripIdempotent | emailforwardparser/client.py:129-130 | stripping a stripped string changes nothing |
| Text.ContainsIffOccurs | emailforwardparser/client.py:138 | `'attachment' in d` holds exactly when the word occurs at some index of d |
| Text.Contains | emailforwardparser/client.py:138 | the substring test `'attachment' in d`; `ContainsIffOccurs` states its meaning |
| Text.EndsWith | emailforwardparser/client.py:149 | `file_name.endswith(".eml")`: the last characters equal the suffix, case-sensitively (`UpperCaseEmlIgnored`) |
| Mime.Find | emailforwardparser/client.py:134-140 | a found index lies inside the list and its element satisfies the test |
| Mime.FindIsFirst | emailforwardparser/client.py:134-140 | the search stops at the first element satisfying the test, and finds nothing exactly when no element satisfies it |
| Mime.Get | emailforwardparser/client.py:126 | `Message.get(name)`; `GetIsFirstMatch` states its meaning |
| Mime.NameIs | emailforwardparser/client.py:136 | the header-name comparison `Message.get` makes, ignoring ASCII case; `GetIsFirstMatch` states the lookup built on it |
| Mime.IsMultipart | emailforwardparser/client.py:133 | `is_multipart()`, here and at client.py:85: the payload is a list of sub-messages; its effect is stated by `BodyIsFirstBodyPart`, `MultipartParts` and `SinglePartFidelity` |
| Mime.GetIsFirstMatch | emailforwardparser/client.py:136 | `get(name)` is `None` exactly when no header has the name, case-insensitively; otherwise it is the value of the first such header |
| Mime.Walk | emailforwardparser/client.py:134 | the walk is never empty and begins with the message itself |
| Mime.WalkLeaf | emailforwardparser/client.py:134 | a part without sub-parts walks to itself only |
| Mime.WalkReachesChildren | emailforwardparser/client.py:147 | every part a sub-message visits at any depth is also visited by its parent's walk |
| Client.Body | emailforwardparser/client.py:132-144 | the specification of `_get_body`, characterised by `BodyIsFirstBodyPart`; `GetBody` is proved equal to it |
| Client.DispositionText | emailforwardparser/client.py:136 | `str(part.get('Content-Disposition'))`: the header's value, or "None" when it is missing (`MissingDispositionQualifies`) |
| Client.IsBodyPart | emailforwardparser/client.py:135-138 | a text/plain part whose disposition does not contain "attachment"; `MissingDispositionQualifies` and `AttachmentDispositionExcluded` state both sides; the part filter at client.py:104-105 uses the same test |
| Client.PayloadText | emailforwardparser/client.py:144 | a string payload is the body and any other payload gives `""`; `BodyIsFirstBodyPart` states the body through it |
| Client.BodyIsFirstBodyPart | emailforwardparser/client.py:132-144 | multipart: the body is the payload text of the first walked text/plain part whose disposition lacks "attachment", and the call fails (unbound `body`) exactly when no walked part qualifies; single part: its own payload text |
| Client.GetBody | emailforwardparser/client.py:132-144 | the walk with `break` returns exactly that body or failure |
| Client.MissingDispositionQualifies | emailforwardparser/client.py:136-138 | a missing Content-Disposition reads as "None", so a text/plain part without one qualifies |
| Client.AttachmentDispositionExcluded | emailforwardparser/client.py:136-138 | a disposition containing "attachment" anywhere excludes the part |
| Client.EmlAttachment | emailforwardparser/client.py:146-151 | the specification of `_get_eml_attachment`, characterised by `EmlAttachmentIsFirstEmlPart`; `GetEmlAttachment` is proved equal to it |
| Client.IsEmlPart | emailforwardparser/client.py:148-149 | a part whose file name is present and ends with ".eml", case-sensitively (`UpperCaseEmlIgnored`); `EmlAttachmentIsFirstEmlPart` states the search built on it |
| Client.EmlAttachmentIsFirstEmlPart | emailforwardparser/client.py:146-151 | no attachment exactly when no walked part's file name ends with ".eml"; otherwise the first such part decides: its first sub-message, or a failure when its payload has none |
| Client.GetEmlAttachment | emailforwardparser/client.py:146-151 | the walk with early return gives exactly that attachment, absence or failure |
| Client.UpperCaseEmlIgnored | emailforwardparser/client.py:149 | the suffix test is case-sensitive: "fwd.EML" is not an `.eml` part |
| Client.SubjectArgument | emailforwardparser/client.py:126-130 | a subject is passed exactly when the raw Subject header is present and non-empty before stripping, and then it is the stripped value |
| Client.BlankSubjectIsPassed | emailforwardparser/client.py:126-129 | a subject of blanks is passed, as `""` |
| Client.ForwardedMetadata | emailforwardparser/client.py:124-130 | `_get_forwarded_metadata`: the classifier applied to the stripped body and the subject argument; its meaning is stated by the two lemmas below |
| Client.ForwardedMetadataFailure | emailforwardparser/client.py:124-125 | classification fails exactly when the message is multipart and no walked part is a body part, and then with `UnboundBody` |
| Client.ForwardedMetadataIgnoresSurroundingSpace | emailforwardparser/client.py:129-130 | a message whose body is another's stripped body, with the same subject argument, is classified alike: the classifier only sees stripped text |
| Client.Resolve | emailforwardparser/client.py:54-60 | the carrier and metadata that `get_original_metadata` and `get_original_eml` settle on, characterised by the three lemmas below |
| Client.Fallback | emailforwardparser/client.py:27-31 | the second hop: an attachment with headers is classified and becomes the carrier, else the first classification stands; `ResolveFallback` and `ResolveAtMostOneHop` state it |
| Client.ResolveAtMostOneHop | emailforwardparser/client.py:25-32 | the result is the classification of its carrier, and the carrier is the message itself or, only after the message was classified as not forwarded, its `.eml` attachment with at least one header |
| Client.ResolveForwarded | emailforwardparser/client.py:26-27 | a message classified as forwarded is its own carrier and attachments are not searched |
| Client.ResolveFallback | emailforwardparser/client.py:27-31 | an unforwarded message with a non-empty `.eml` attachment takes the attachment's classification, forwarded or not, and the attachment becomes the carrier |
| Client.GetOriginalMetadata | emailforwardparser/client.py:54-60 | the metadata is that of the resolution: reassigned at most once, from the attachment |
| Client.MetadataFromFile | emailforwardparser/client.py:71-72 | `get_original_metadata_from_file` on the parsed message: the message's own classification, with no attachment fallback; compared with `Resolve` by the two lemmas below |
| Client.FromFileAgreesWhenForwarded | emailforwardparser/client.py:71-72 | the file variant agrees with `get_original_metadata` when the message itself is forwarded |
| Client.FromFileSkipsFallback | emailforwardparser/client.py:71-72 | an `.eml` wrapper whose inner message is forwarded: the file variant says not forwarded, `get_original_metadata` says forwarded |
| Client.Join | emailforwardparser/client.py:119-121 | the text the loop of `_format_addresses` accumulates, built from the left; `JoinAgrees` and `UnjoinJoin` state its meaning |
| Client.JoinAgrees | emailforwardparser/client.py:118-122 | the left-to-right accumulation equals "first, then `", "` plus the join of the rest" |
| Client.UnjoinJoin | emailforwardparser/client.py:118-122 | for addresses without commas, cutting the joined text at each ", " gives the addresses back |
| Client.UnjoinStep | emailforwardparser/client.py:118-122 | cutting `x, rest` for a comma-free `x` gives `x`, then the cuts of `rest` |
| Client.FormattedAddresses | emailforwardparser/client.py:118-122 | `_format_addresses` as a value: fails on an empty list, else the addresses joined by `Join`; `FormatAddresses` is proved equal to it |
| Client.FormatAddresses | emailforwardparser/client.py:118-122 | the addresses joined with ", " in order; fails on an empty list |
| Client.OutMessage.constructor | emailforwardparser/client.py:86 | a new message has no headers, no parts and no content |
| Client.OutMessage.SetHeader | emailforwardparser/client.py:111-116 | assigning a header appends a line and changes nothing else |
| Client.OutMessage.Attach | emailforwardparser/client.py:100 | attaching appends a part and changes nothing else |
| Client.OutMessage.SetContent | emailforwardparser/client.py:88 | `set_content` sets the body and leaves headers and parts alone |
| Client.HeaderList | emailforwardparser/client.py:110-116 | the header lines `_set_headers` appends; `HeadersInOrder` and `CcCount` state their order and number |
| Client.CcHeaders | emailforwardparser/client.py:115-116 | one CC line, also written at client.py:94-95, holding the joined cc addresses when cc is non-empty, none otherwise; `HeadersInOrder` and `CcCount` state where and how often it appears |
| Client.SetHeaders | emailforwardparser/client.py:110-116 | appends Date, From (address only), Subject, To and, with a non-empty cc, CC; with no recipient it fails after Date, From and Subject are written |
| Client.Reconstruct | emailforwardparser/client.py:84-108 | the rebuilt message as a value; `ReconstructNeedsRecipient`, `HeadersInOrder`, `MultipartParts` and `SinglePartFidelity` state its meaning |
| Client.BuildOriginalEmail | emailforwardparser/client.py:84-108 | a fresh message equal to the specified rebuild; fails only for a missing recipient |
| Client.ReconstructNeedsRecipient | emailforwardparser/client.py:114 | the rebuild fails exactly when the metadata has no recipient |
| Client.HeadersInOrder | emailforwardparser/client.py:91-95 | headers are Date, From, Subject, To, then CC once (single part) or twice (multipart) when cc is non-empty, and none otherwise |
| Client.CcCount | emailforwardparser/client.py:94-95 | the number of CC lines is 2 for a multipart rebuild, 1 for a single-part one and 0 without cc |
| Client.KeptParts | emailforwardparser/client.py:101-107 | the top-level parts the filter keeps; `KeptPartsAppend` and `KeptPartsMembers` state its meaning |
| Client.KeptPartsAppend | emailforwardparser/client.py:103-107 | the part filter works part by part and keeps their order |
| Client.KeptPartsMembers | emailforwardparser/client.py:103-107 | every kept entry is an unchanged top-level part that is not a body part, and every such part is kept |
| Client.MultipartParts | emailforwardparser/client.py:97-107 | the first attached part is the new text part holding the body; the rest are the kept top-level parts; there is no single-part content |
| Client.EveryBodyPartDropped | emailforwardparser/client.py:103-106 | with body parts first and third, both are dropped and only the middle part is kept |
| Client.SinglePartFidelity | emailforwardparser/client.py:85-89 | a single-part rebuild is not multipart, has no parts and holds the body as its content |
| Client.Dict | emailforwardparser/client.py:74-82 | the dict `_get_dict` builds, as a value; `ForwardedDict` and `UnforwardedDict` state its meaning |
| Client.GetDict | emailforwardparser/client.py:74-82 | the method builds exactly the specified dict |
| Client.ForwardedDict | emailforwardparser/client.py:76-78 | a forward succeeds exactly when there is a recipient; Send-To is the first recipient's address and the eml is the rebuild |
| Client.UnforwardedDict | emailforwardparser/client.py:79-81 | otherwise it succeeds exactly when From is present and holds an address; Send-To is that address and the eml is the message unchanged |
| Client.OriginalEml | emailforwardparser/client.py:25-32 | `get_original_eml` as a value: the dict of the resolved carrier and metadata; `GetOriginalEml` is proved equal to it |
| Client.GetOriginalEml | emailforwardparser/client.py:25-32 | resolves the carrier at most one hop deep and builds the dict from the carrier and its metadata |

## Left out

- The regular-expression engine (`finditer`, `search`) is not modelled; its matches are an input.
- `find_named_matches` (utils.py:15-19) is not modelled; it is a direct wrapper over `re.match(...).groupdict()`.
- FindAllStringSubmatchIndex: the pattern, the string and the regular expression's group count are not inputs. The spans each match yields are given, so nothing checks that every match has the same number of groups.
- Utils.SplitWithRegexp: an optional group that did not take part in a match has span (-1, -1). `Slice` gives those bounds Python's negative-index reading, but the losslessness lemmas assume in-range spans.
- `unicodedata.category` is a foreign table and is modelled as the `category` parameter.
- The address regular expression of `_get_dict` is modelled as the `findAddress` parameter.
- The forward classifier and the `forward_parser` module are not modelled; the classifier is a parameter.
- The email library's parsing is not modelled. `get_content_type()` and `get_filename()` are read from fields of `Mime.Message`, and the library derives them.
- `as_string()` serialisation is not modelled. The dict's `eml` is the rebuilt message or the carrier itself, not its text.
- The rebuilt message's library headers are not modelled: the MIME-Version and Content-Type headers that `MIMEMultipart()` starts with, and the headers `set_content` and `MIMEText` add. For the same reason the new text part's charset and transfer encoding (client.py:97-98) are implicit in `Attached.BodyText`.
- Client.SetHeaders, Client.OutMessage.SetHeader: assigning a header never fails in the model. In the single-part rebuild, `EmailMessage()` uses the library's default policy, and it raises `ValueError` for a header value containing CR or LF (a date or subject from the classifier may hold one). The multipart branch's `MIMEMultipart()` uses the compat32 policy, which has no such check. The email library's header policies are not part of this model.
- `_get_file_content` and the `*_from_file` wrappers' file reading are left out as I/O. `Client.MetadataFromFile` takes the parsed message. `get_original_eml_from_file` (client.py:34-43) is `get_original_eml` of the file's text.
- Python raises different exceptions (IndexError, TypeError, AttributeError, UnboundLocalError). They are collapsed into `Client.ClientError`, one case per failing expression.
- Mime.NameIs: header names are compared after ASCII lower-casing only, while Python lower-cases all Unicode letters. Header names are ASCII in practice.
- Client.EmlAttachment: for an `.eml` part whose payload is a string, Python's `get_payload()[0]` returns its first character, and classification then fails on it. The model reports `MalformedAttachment` at once. The entry points fail in both cases, but the fallback of `get_original_eml` and `get_original_metadata` raises later in Python than in the model.
