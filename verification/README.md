# emociones_2 core in Dafny

`app.py` of emociones_2 is a small Flask service. It has two pieces of real logic, and this project models and verifies both.

1. **Emotion labels.**
   - `normalizar_emocion` cleans the free-text reply of a vision model.
   - `/predict` then keeps the result only if it is one of the five labels in `TARGET_EMOTIONS`, and returns `"Desconocida"` otherwise.
2. **Event ingestion.**
   - The serial reader `leer_serial` turns each line sent by the ESP32 into a stored event with an increasing `id`.
   - `/estado` reports the last stored event.

Modules:

- `Wrappers` (`wrappers.dfy`): `Option`.
- `PyStr` (`pystr.dfy`): the Python `str` operations the code uses, on `seq<char>`.
  - `str.isspace`: the full Python set, including U+001C..U+001F and the Unicode spaces.
  - `strip()`, `lower()`, `capitalize()`.
  - `replace(pattern, "")`.
- `Normalization` (`normalization.dfy`): `normalizar_emocion` as a pipeline.
  - `AsciiFold` (NFD, then drop non-ASCII), one character at a time through the `Decompose` table.
  - `DropPunctuation` (`re.sub(r"[^\w\s]", "", ·)`).
  - Then `Strip`, `Lower` and `Capitalize`.
  - The `NormalForm` predicate describes every result.
- `Emotions` (`emotions.dfy`): `TARGET_EMOTIONS`, the sentinel label, and the gate in `predict`.
- `EventStore` (`eventstore.dfy`): the reader's state (`eventos`, `event_id`), one loop step, a run over many lines, and the `/estado` lookup.

Two behaviours of the reader are easy to misread, and the model keeps both as the code has them:

- **Every marker is removed.** `line.replace("ESP32 → ", "")` deletes every occurrence of the marker, not only a leading one (`MarkerRemovedAnywhere`).
- **A non-object line uses up an id.**
  - JSON that parses but is not an object (an array, a number, a string) still advances `event_id`: the increment at line 32 comes before the item assignment at line 33.
  - That assignment raises, the `except` at line 36 catches it, and nothing is stored.
  - So ids strictly increase but can have gaps (`NonObjectLeavesGap`). Without such lines they are 1, 2, 3, … (`RunDense`).

## Model

| member | source | states |
|---|---|---|
| PyStr.Strip | app.py:28 | the result has no whitespace at either end; it is empty exactly when the input is all whitespace; an already trimmed string is returned unchanged |
| PyStr.StripPadded | app.py:28 | whitespace added before and after a text does not change what `strip()` returns |
| PyStr.LowerStripCommute | app.py:55 | `.strip().lower()` equals `.lower().strip()`, because lower-casing never creates or removes whitespace |
| PyStr.Lower | app.py:55 | `str.lower()` on the ASCII text it receives: same length, every character case-mapped in place, upper-case letters become lower-case and nothing else changes |
| PyStr.Capitalize | app.py:57 | same length; the first character is not lower-case and is the same letter as the input's; every later character is lower-cased |
| PyStr.RemoveAll | app.py:31 | `str.replace(pattern, "")`: the result is never longer than the input (the full behaviour is in the three lemmas below and RemoveAllAbsent) |
| PyStr.RemoveAllAbsent | app.py:31 | `replace(marker, "")` leaves text without an occurrence of the marker unchanged |
| Normalization.Decompose | app.py:53-54 | a character's NFD decomposition with non-ASCII code points removed is ASCII; an ASCII character maps to itself; a non-ASCII space vanishes |
| Normalization.AsciiFold | app.py:53-54 | the result is pure ASCII; ASCII text is unchanged; whitespace stays whitespace |
| Normalization.AsciiFoldAppend | app.py:53-54 | the ASCII fold works character by character: it distributes over concatenation |
| Normalization.DropPunctuation | app.py:55 | only `\w` and whitespace characters remain; text made only of those is unchanged; ASCII stays ASCII |
| Normalization.DropPunctuationAppend | app.py:55 | punctuation removal distributes over concatenation |
| Normalization.DropAllPunctuation | app.py:55 | a run of characters none of which is `\w` or whitespace disappears completely |
| Normalization.NormalizeEmotion | app.py:48-57 | an empty input gives `""`; every result is in normal form: only ASCII `\w` and whitespace, no whitespace at either end, a first character that is not lower-case, and no upper-case letter after it |
| Normalization.CanonicalizeIsNormal | app.py:55-57 | stripping, lower-casing and capitalising ASCII `\w`/whitespace text always gives the normal form |
| Normalization.NormalFormIsFixed | app.py:52-57 | a string in normal form is its own normalisation |
| Normalization.FixedPointsAreNormalForms | app.py:48-57 | `normalizar_emocion(t) == t` holds exactly when `t` is in normal form |
| Normalization.NormalizeIdempotent | app.py:48-57 | normalising twice gives the same result as normalising once |
| Normalization.NormalizeByContent | app.py:49-57 | the empty-input guard is consistent with the pipeline: the result is the capitalised, stripped, lower-cased word-and-space content of the ASCII fold |
| Normalization.NormalizeIgnoresCaseAccentsPunctuation | app.py:52-57 | two replies with the same lower-cased word-and-space content after the ASCII fold normalise to the same label |
| Normalization.NormalizesTo | app.py:52-57 | a reply whose lower-cased content equals that of a normal-form string normalises to that string |
| Normalization.NormalizeIgnoresSurroundingSpace | app.py:103-104 | the extra `.strip()` that `predict` applies before normalising changes nothing |
| Normalization.CapitalizedWordIsNormal | app.py:45 | a capitalised word such as each canonical label is in normal form |
| Normalization.LettersPassThrough | app.py:53-55 | ASCII letters survive the ASCII fold and the punctuation removal unchanged |
| Normalization.WordNormalizes | app.py:55-57 | a run of ASCII letters normalises to its capitalised lower-case spelling |
| Normalization.TrailingPunctuationIgnored | app.py:55 | punctuation appended to a reply does not change its normalisation |
| Normalization.PaddingIgnored | app.py:55 | whitespace around a reply does not change its normalisation |
| Normalization.VariantNormalizes | app.py:52-57 | a word in any letter case, with trailing punctuation and surrounding whitespace, normalises to the normal-form word it spells |
| Normalization.AccentCountsAsBase | app.py:53-54 | any character in any reply counts as its decomposition: an accented letter as its base letter, a character with no ASCII decomposition as nothing |
| Normalization.AccentedVariant | app.py:53-54 | the same, with the character inside a padded, punctuated word |
| Normalization.VanishingCharacters | app.py:53-54 | `ß`, `ø`, `Ø`, an emoji and a bare combining accent have no ASCII decomposition and vanish |
| Normalization.SpanishAccents | app.py:53-54 | á é í ó ú ñ Á É Í decompose to their base letters |
| Emotions.Predict | app.py:103-114 | the reply is a 500 exactly when the upstream reply is missing; otherwise the label is one of `TARGET_EMOTIONS` or `"Desconocida"`; it is a target exactly when the normalised reply is one, and then it equals the normalised reply |
| Emotions.TargetsAreNormal | app.py:45 | each of the five canonical labels normalises to itself |
| Emotions.TargetIsNormalWord | app.py:45 | each canonical label is a run of ASCII letters that normalises to itself |
| Emotions.PredictCanonical | app.py:104-110 | a reply that is exactly a canonical label is returned as that label |
| Emotions.UnknownIsNormal | app.py:108 | the sentinel `"Desconocida"` normalises to itself |
| Emotions.PredictStable | app.py:103-110 | feeding `predict`'s label back in as the reply gives the same label |
| Emotions.AcceptsVariant | app.py:103-110 | a canonical label in any letter case, with trailing punctuation and surrounding whitespace, is accepted as that label |
| Emotions.AcceptsAccentedVariant | app.py:103-110 | the same with one character replaced by one that decomposes to it, such as an accented letter, or with a character that has no ASCII decomposition inserted |
| Emotions.AccentedExample | app.py:103-110 | `"Alegría!!"` is accepted as `"Alegria"` |
| Emotions.ShoutedExample | app.py:103-110 | `"  TRISTEZA "` is accepted as `"Tristeza"` |
| Emotions.RejectsOffList | app.py:106-108 | a reply whose normalisation is not a canonical label becomes `"Desconocida"` |
| EventStore.Step | app.py:28-37 | a line that is unreadable, blank after stripping or not JSON changes neither the events nor the counter; a parsed line advances the counter by one; an object line appends the object with `"id"` set to the new counter; any other line appends nothing |
| EventStore.Payload | app.py:28-31 | the text handed to `json.loads` is the stripped line, unchanged when it holds no marker, and never longer than it |
| EventStore.Run | app.py:26-37 | over any sequence of lines `eventos` only grows, `event_id` never decreases, and the counter rises at least as much as the list and at most once per line |
| EventStore.InitValid | app.py:21-22 | the start state satisfies the id invariant and has dense ids |
| EventStore.StepValid | app.py:32-34 | one step keeps the invariant: ids are numbers in 1..`event_id` and strictly increase along `eventos` |
| EventStore.RunValid | app.py:25-37 | the invariant holds after any sequence of lines |
| EventStore.RunCounts | app.py:29-36 | after a run the counter has advanced by the number of parsed lines, exactly one event was stored per object line, and the earlier events are a prefix of the new list |
| EventStore.StepDense | app.py:32-34 | a step on a line that is not a non-object JSON value keeps ids equal to positions plus one |
| EventStore.RunDense | app.py:32-36 | without non-object lines the stored ids are exactly 1, 2, 3, … |
| EventStore.NonObjectLeavesGap | app.py:32-36 | after a non-object line, the next stored event gets the counter plus two, so one id is skipped |
| EventStore.Latest | app.py:66-69 | `/estado` reports nothing exactly when no event is stored, and otherwise the last stored event |
| EventStore.LatestInit | app.py:66-69 | before any line `/estado` reports nothing |
| EventStore.LatestAfterStep | app.py:32-34 | after an object line `/estado` reports the new event with the new id; after any other line its answer is unchanged |
| EventStore.LatestHasLargestId | app.py:67-68 | the reported event has the largest id of all stored events |
| EventStore.RemoveAllSkips | app.py:31 | `replace` copies text in which no occurrence of the pattern starts |
| EventStore.RemoveAllLeading | app.py:31 | `replace` drops an occurrence at the front and carries on after it |
| EventStore.MarkerRemovedAnywhere | app.py:31 | the marker is removed at its first occurrence wherever that is, not only as a prefix |
| EventStore.MarkedPayload | app.py:31 | the marker followed by a payload without markers hands exactly the payload to the parser |
| EventStore.MarkedObjectStored | app.py:28-34 | the device's usual line, the marker and a JSON object, is stored with the next id, overriding any `"id"` the object carried |

## Left out

- Serial I/O and the reader thread (app.py:20, app.py:41-42) are not modelled.
  - The reader is driven by a sequence of received lines.
  - A line whose reading or UTF-8 decoding raises is `None` and is dropped, as the outer `except` does.
  - The unsynchronised sharing of `eventos` and `event_id` between the thread and the Flask handlers is not modelled.
- `print` calls are logging only and are omitted.
- JSON parsing is a parameter `string -> Option<Value>`; the JSON grammar is not modelled.
  - Numbers are split into integers and other literals, because only the integer `id` matters.
- The OpenAI chat and speech calls, the prompt, base64 handling, `request.get_json` and `split(",")` are not modelled (app.py:74-101, app.py:116-134).
  - The upstream reply is an input `Option<string>`.
  - `None` stands for any exception before the gate: a failed call, a missing image field or a null content. Each of these ends in the 500 response.
- Flask routing, templates, `jsonify`, `send_file`, `dotenv` and the `__main__` block are framework plumbing and are not modelled.
- Normalization.Decompose: the NFD table covers ASCII, the accented letters of Latin-1, the negated comparison signs U+2260, U+226E and U+226F, and the singletons U+212A, U+212B, U+037E and U+1FEF.
  - Other characters whose canonical decomposition starts with an ASCII character map to nothing here, where Python keeps that character. Examples are Latin Extended-A letters such as `ā`, `ś`, `č` and Vietnamese letters.
  - Where that first character is not a letter or digit, the later `[^\w\s]` step removes it anyway, so the difference is confined to letters.
  - The general lemmas about normalisation rely only on `Decompose`'s contract, so they hold for any table with that contract. The exceptions are the table facts SpanishAccents and VanishingCharacters, and the concrete AccentedExample.
- PyStr.Lower and PyStr.Capitalize map case on ASCII only. Every caller passes ASCII text, since case mapping runs after the ASCII fold.
- PyStr.RemoveAll: its own contract states only that the result is no longer than the input. The full behaviour is stated by RemoveAllAbsent, RemoveAllSkips and RemoveAllLeading.
