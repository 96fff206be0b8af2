# runelite-emotes in Dafny

A model of the RuneLite "Twitch Emotes" plugin. The plugin adds nine emote
images to the game client's mod-icon table. It then rewrites chat messages
and players' overhead text so that every word that is an emote trigger,
ignoring case, becomes an inline image tag for that emote's icon slot.

The project has five modules:

- `Wrappers` (`wrappers.dfy`): `Option`, which stands in for Java's nullable references.
- `JavaText` (`java_text.dfy`): the parts of Java's string library the plugin
  uses, written out. `String.split(" ")` drops trailing empty strings and gives
  `[s]` when there is no space. joptsimple's `Strings.join`. `toLowerCase`,
  restricted to ASCII. The lemmas relate split and join both ways.
- `ChatMarkup` (`chat_markup.dfy`): the inline image tag `<img=N>`, with N
  written as `Integer.toString` writes it. Proved injective and free of
  spaces, and its first character is not alphanumeric.
- `Emotes` (`emote.dfy`): the `Emote` enum. It has the nine variants in
  declaration order, their ordinals, names and triggers, and the resource
  name `loadImage` reads. The static initializer is modelled as
  `ImmutableMap.Builder`, which fails on a duplicate key. `getEmote` is the
  lookup in the map it builds.
- `Plugin` (`emotes_plugin.dfy`): the `EmotesPlugin` class. The field
  `modIconsStart` uses -1 as its sentinel, and the host `Client` holds a game
  state and a mod-icon table that may be null. The class has
  `loadEmojiIcons`, which fills a new array in a loop, and `updateMessage`,
  which overwrites words of an array in a loop. It also has the three event
  handlers. Each method is proved against a specification function:
  `Installed` for the icon table and `Rewritten` for messages.

Image loading is a parameter `loader: Emote -> Option<IndexedSprite>`. It
stands for `loadImage` followed by `ImageUtil.getImageIndexedSprite`, and
`None` means that either of them threw. The handlers do not call the host.
They return the rewritten text (`Some`) that the source hands to the host,
or `None` where the source returns early.

The overhead-text handler does not check `modIconsStart`. Before the icons
are installed, it rewrites text against the sentinel -1, so `gz` becomes
`<img=0>`, an icon of the host's own table (`ExampleUnloadedOffset`). One
could read the plugin as leaving text alone in that state. The code does not
do that, and the model follows the code.

## Model

| member | source | states |
|---|---|---|
| Emotes.Ordinal | src/main/java/com/fraser/Emote.java:36-44 | the ordinal of a variant is its position in `values()`, below the variant count |
| Emotes.OrdinalsArePositions | src/main/java/com/fraser/Emote.java:36-44 | there are nine variants, position i holds ordinal i, and distinct variants have distinct ordinals |
| Emotes.TriggersDistinct | src/main/java/com/fraser/Emote.java:36-44 | no two variants share a trigger |
| Emotes.TriggersLowercase | src/main/java/com/fraser/Emote.java:36-44 | every trigger is lowercase and made only of ASCII letters and digits |
| Emotes.ResourceNameIsTriggerPng | src/main/java/com/fraser/Emote.java:69 | the resource `loadImage` reads, the lowercased constant name plus `.png`, is the trigger plus `.png` |
| Emotes.ResourceNamesDistinct | src/main/java/com/fraser/Emote.java:69 | distinct variants read distinct image resources |
| Emotes.BuildMap | src/main/java/com/fraser/Emote.java:52-59 | building succeeds exactly when no key is put twice; the map's keys are the keys put and each maps to its value |
| Emotes.Entries | src/main/java/com/fraser/Emote.java:54-57 | the builder receives exactly one entry per variant, at the variant's ordinal, pairing its trigger with the variant |
| Emotes.EntriesDistinct | src/main/java/com/fraser/Emote.java:52-59 | the entries put into the builder have distinct keys |
| Emotes.EmojiMapContents | src/main/java/com/fraser/Emote.java:46-60 | every trigger is a key of `emojiMap` mapping to its own variant, and every key is some trigger |
| Emotes.StaticInitBuildsEmojiMap | src/main/java/com/fraser/Emote.java:50-60 | the static initializer does not throw and builds exactly `EmojiMap` |
| Emotes.GetEmoteSound | src/main/java/com/fraser/Emote.java:74-77 | when `getEmote` finds a variant, that variant's trigger is the word looked up |
| Emotes.GetEmoteOfTrigger | src/main/java/com/fraser/Emote.java:74-77 | `getEmote` of a variant's trigger is that variant: lookup inverts the trigger table |
| Emotes.GetEmoteNone | src/main/java/com/fraser/Emote.java:74-77 | `getEmote` returns null exactly when the word is no variant's trigger |
| Emotes.LookupIgnoresCase | src/main/java/com/fraser/EmotesPlugin.java:179 | looking up a lowercased word finds a variant exactly when the word and the trigger are equal ignoring case |
| JavaText.ToLower | src/main/java/com/fraser/EmotesPlugin.java:179 | lowercasing keeps the length, leaves no uppercase letter and changes nothing in lowercase text |
| JavaText.ToLowerKeepsPunctuation | src/main/java/com/fraser/EmotesPlugin.java:179 | lowercasing keeps a non-alphanumeric character non-alphanumeric at its position |
| JavaText.Split | src/main/java/com/fraser/EmotesPlugin.java:174 | no word produced by `split(" ")` contains a space |
| JavaText.SplitThenJoin | src/main/java/com/fraser/EmotesPlugin.java:174-199 | joining the split words with single spaces gives back the text without its trailing spaces |
| JavaText.JoinThenSplit | src/main/java/com/fraser/EmotesPlugin.java:174-199 | splitting the join of space-free words whose last word is not empty gives those words back |
| JavaText.SplitEmpty | src/main/java/com/fraser/EmotesPlugin.java:174 | splitting the empty text gives one empty word |
| JavaText.SplitOnlySeparator | src/main/java/com/fraser/EmotesPlugin.java:174 | splitting a single space gives no words |
| ChatMarkup.ImgTagShape | src/main/java/com/fraser/EmotesPlugin.java:188 | a tag contains no space and begins with `<`, which is not alphanumeric |
| ChatMarkup.ImgTagInjective | src/main/java/com/fraser/EmotesPlugin.java:186-188 | two slots get the same tag exactly when they are the same slot |
| Plugin.RewriteWord | src/main/java/com/fraser/EmotesPlugin.java:179-190 | rewriting a word never empties it and never introduces a space |
| Plugin.RewriteWordMeaning | src/main/java/com/fraser/EmotesPlugin.java:179-188 | a word whose lowercase is the trigger of e becomes the tag of slot `modIconsStart + ordinal(e)`; a word matching no trigger is unchanged |
| Emotes.TriggerNotInside | src/main/java/com/fraser/Emote.java:36-44 | no declared trigger occurs at any position inside a longer trigger |
| Plugin.EmbeddedTriggerNotMatched | src/main/java/com/fraser/EmotesPlugin.java:179-184 | a trigger with any text attached before or after it is not an emote word at all, so it is not replaced by any emote |
| Plugin.PunctuatedWordNotMatched | src/main/java/com/fraser/EmotesPlugin.java:179-184 | a word holding a character that is not an ASCII letter or digit is never an emote word |
| Plugin.ImgTagIsNotEmoteWord | src/main/java/com/fraser/EmotesPlugin.java:179-188 | a tag is never itself taken for an emote word |
| Plugin.RewriteWordNotEmoteWord | src/main/java/com/fraser/EmotesPlugin.java:177-191 | no rewritten word is an emote word |
| Plugin.RewriteWordsPointwise | src/main/java/com/fraser/EmotesPlugin.java:177-191 | the loop keeps the word count, and its i-th output word is the i-th input word rewritten |
| Plugin.AnyEmoteWordIff | src/main/java/com/fraser/EmotesPlugin.java:176-191 | the `editedMessage` flag computed by the scan is set exactly when some word is an emote word |
| Plugin.ScanStep | src/main/java/com/fraser/EmotesPlugin.java:177-191 | one loop iteration extends the rewritten prefix by the rewritten word and sets the flag exactly when that word matches |
| Plugin.RewrittenByScan | src/main/java/com/fraser/EmotesPlugin.java:174-199 | the result is null when the scan set no flag, and the join of the rewritten words otherwise |
| Plugin.RewrittenOneWord | src/main/java/com/fraser/EmotesPlugin.java:174-199 | a one-word message is rewritten exactly when the word is an emote word, into that word's tag |
| Plugin.RewrittenNoneIff | src/main/java/com/fraser/EmotesPlugin.java:174-197 | the result is null exactly when no split word, lowercased, equals any trigger |
| Plugin.RewrittenResplits | src/main/java/com/fraser/EmotesPlugin.java:174-199 | splitting a rewritten message gives as many words as the original, each one the original word rewritten |
| Plugin.RewriteTwiceIsNoOp | src/main/java/com/fraser/EmotesPlugin.java:174-199 | rewriting a rewritten message again, with any offset, finds nothing to change |
| Plugin.ExampleMixedCase | src/main/java/com/fraser/EmotesPlugin.java:179-188 | `KeKw` becomes the tag of slot `modIconsStart + 7` |
| Plugin.ExamplePunctuation | src/main/java/com/fraser/EmotesPlugin.java:179-184 | `kekw!` is left alone |
| Plugin.ExampleUnloadedOffset | src/main/java/com/fraser/EmotesPlugin.java:154-160 | with the offset still -1, `gz` becomes `<img=0>` |
| Plugin.Installed | src/main/java/com/fraser/EmotesPlugin.java:88-112 | the new table has the old length plus the variant count, begins with the old table, and holds emote e's image at old length + ordinal(e) |
| Plugin.InstalledFromSlots | src/main/java/com/fraser/EmotesPlugin.java:88-109 | a table that keeps the old entries and holds each emote's load result in its slot is exactly `Installed` |
| Plugin.LoadFailureIsolated | src/main/java/com/fraser/EmotesPlugin.java:96-108 | an image that fails to load leaves only its own slot null and every other slot as it would be |
| Plugin.EmotesPlugin.constructor | src/main/java/com/fraser/EmotesPlugin.java:63 | a new plugin has `modIconsStart == -1` |
| Plugin.EmotesPlugin.StartUp | src/main/java/com/fraser/EmotesPlugin.java:66-69 | starting up has the effect of `loadEmojiIcons` |
| Plugin.EmotesPlugin.OnGameStateChanged | src/main/java/com/fraser/EmotesPlugin.java:72-78 | icons are loaded when the new state is LOGGED_IN, and nothing changes for any other state |
| Plugin.EmotesPlugin.LoadEmojiIcons | src/main/java/com/fraser/EmotesPlugin.java:80-113 | with icons already installed or no host table nothing changes (so a second call does nothing); otherwise the offset becomes the old length and a fresh table equal to `Installed(old table, loader)` replaces the old one |
| Plugin.EmotesPlugin.UpdateMessage | src/main/java/com/fraser/EmotesPlugin.java:171-200 | the result is `Rewritten(message, modIconsStart)`: null when nothing matched, else the rewritten words joined by spaces |
| Plugin.EmotesPlugin.OnChatMessage | src/main/java/com/fraser/EmotesPlugin.java:116-149 | text is handed back only when logged in, icons are installed and the type is one of the seven chat types, and then it is the rewritten message |
| Plugin.EmotesPlugin.OnOverheadTextChanged | src/main/java/com/fraser/EmotesPlugin.java:152-168 | only players' text is rewritten, and it is rewritten against the current offset whether or not icons are installed |

## Left out

- Image decoding and scaling (`ImageUtil.loadImageResource`, `getScaledInstance`, `bufferedImageFromImage`, `getImageIndexedSprite`): these are foreign image code. The `loader` parameter stands for them, and a sprite is an opaque value.
- Logging (`log.warn`, `log.debug`): it has no effect on state.
- Host side effects after rewriting (`setRuneLiteFormatMessage`, `chatMessageManager.update`, `client.refreshChat`, `setOverheadText`): the handlers return the text they would hand over instead.
- The event bus, dependency injection, the plugin descriptor and the plugin lifecycle framework. The game state, chat message, actor kind and loader are parameters.
- `ChatMessageBuilder` is not part of this model. Its `img(id).build()` is taken to produce `<img=` + `Integer.toString(id)` + `>`. The proofs about messages use only `ImgTagShape` and `ImgTagInjective`.
- JavaText.ToLower: folds only ASCII letters, not the full Unicode mapping of `toLowerCase(Locale.ROOT)`. One case this loses: `toLowerCase(Locale.ROOT)` maps KELVIN SIGN U+212A to `k`, so the program rewrites the word U+212A `ekw` as the `kekw` emote, which the model does not. `ToLowerKeepsPunctuation` and `PunctuatedWordNotMatched` hold only for the ASCII fold.
- Emotes.ResourceNameIsTriggerPng: assumes that the JVM's default locale, which `name().toLowerCase()` at Emote.java:69 uses, maps ASCII letters to ASCII letters. Under a Turkish or Azeri default locale `I` becomes dotless `ı` (U+0131). WIDEPEEPOHAPPY, X0R6ZTGIGGLE and WIDEHARD would then ask for resources that do not exist, and their loads would fail. A `loader` that returns `None` for those three covers that outcome, but `ResourceName` itself does not model the locale.
- Chat message types: the model has the seven rewritten chat types and stands for all other types with five representative constants.
- 32-bit overflow of `modIcons.length + emotes.length` and `modIconsStart + ordinal` is not modelled: integers are unbounded, and a table with about 2^31 icons does not occur.
- `Arrays.copyOf` allocation failure and other JVM exceptions are not modelled.
