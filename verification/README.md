# Radio mode base: menu tree builder and display sanitiser

This project is a Dafny model of two pure pieces of the radio-mode base class
(`RadioBaseMode` in `resources/basemode.py`) of a Raspberry Pi internet/FM radio.
It also proves properties of both pieces.

- **Menu tree builder** (`_walk_menu`, `_get_menu_items`). A mode declares its
  menu as an ordered list of `(text, target)` pairs. A target whose type is
  exactly `list` is a nested submenu spec. Any other target is an opaque
  action. The builder produces a tree: one child per entry, in order. Every
  submenu is closed by one synthesized Back item. The mode's top-level menu
  (`RadioMenuMode`) never gets a Back item.
- **Display sanitiser** (`remove_accents`). The character display only shows
  ASCII. Text is NFKD-normalised, then every non-ASCII code point is dropped,
  never replaced. A metadata dict is sanitised value by value, and its keys
  are kept.

Files:

- `values.dfy` (module `Values`): `Option` (a Python attribute that may be `None`) and `Result` (a value, or an exception raised).
- `menu.dfy` (module `Menu`): the spec datatype `Target = Action | Nested`, and `Entry`. The tree is `Level(kind, items)`, with `Kind = ModeRoot | Submenu(title)` and `Node = Item | Back | Sub`. The builder functions `AddEntries`, `WalkMenu`, `BuildEntry` and `GetMenuItems` mirror the source.
- `menu_properties.dfy` (module `MenuProperties`): whole-tree properties.
  - The Back policy at every depth (`WellFormed`).
  - An inverse of the builder (`SpecOf`) and the round trips through it.
  - The count of Back items.
  - A worked example: Play plus a Settings submenu holding Volume.
- `accents.dfy` (module `Accents`): the ASCII filter (`EncodeAsciiIgnore`), the text branch (`SanitizeText`) and `RemoveAccents` over `Data = Text | Dict | Opaque`.
- `accents_properties.dfy` (module `AccentsProperties`):
  - The filter works code point by code point.
  - It is idempotent, and it is the identity exactly on ASCII text.
  - The whole sanitiser is idempotent, assuming that NFKD leaves ASCII text alone (`FixesAscii`).
  - Worked examples ("café", and a metadata dict).

Modelling decisions:

- The source tells a submenu apart from an action with a runtime `type(target) == list` check. Here the mode's menu declaration makes that choice in the datatype, `Nested` versus `Action`. A tuple target is therefore an `Action`, as in the source.
- `RadioMenuMode` is taken not to be a `RadioSubmenu`. The module `menubase` is not part of this model. The `isinstance(parent, RadioSubmenu)` test is the kind tag `Kind.Submenu?`.
- `self.menu` is an `Option<Spec>`. Python truthiness makes `None` and `[]` both give the bare top-level menu.
- NFKD (`unicodedata.normalize`) is a function parameter `nfkd: string -> string`. Text is a Dafny `string`: a sequence of Unicode scalar values, one per code point.
- A value that is neither an exact `dict` nor text is `Opaque`. The source raises a `TypeError` on it in the normalisation step, and the model gives `Failure(UnsupportedInputType)`. A dict that holds such a value fails as a whole, because the dict comprehension stops on the first exception.
- The code raises no error for an unusual target: every target whose type is not exactly `list` becomes an action.
- `add_item` is taken to append its node after the existing children, and `add_back_item` to append one Back item after them. Both live in `menubase`, which is not part of this model; `Menu.AddItem` is defined that way, and the spec order of the children rests on it.

## Model

| member | source | states |
|---|---|---|
| Menu.AddEntries | resources/basemode.py:52-64 | The loop keeps the children the parent already has. After them it appends exactly one built child per spec entry, in spec order, and the kind does not change. |
| Menu.WalkMenu | resources/basemode.py:49-70 | Children are the spec entries built in order. A submenu gets one more child, Back, in last position. The top-level menu gets none. |
| Menu.BuildEntry | resources/basemode.py:55-64 | A list target becomes a submenu titled with the entry text: its n entries, each built the same way and in order, and then Back, so n+1 children. Any other target becomes an item carrying that text and that action unchanged. An entry never builds a Back item. |
| Menu.GetMenuItems | resources/basemode.py:72-79 | The result is always the mode's top-level menu. A `None` or empty menu gives no children. Otherwise there is one child per entry, in order, and no Back item. |
| MenuProperties.SpecOfBuilt | resources/basemode.py:53-64 | Children built one per entry read back, with Back items dropped, as exactly the original entries (texts, targets and order), at every depth. |
| MenuProperties.SubmenuRoundTrip | resources/basemode.py:56-70 | A built submenu keeps its title and reads back as its own spec. The builder drops, adds (besides Back) and reorders nothing. |
| MenuProperties.MenuRoundTrip | resources/basemode.py:72-79 | The top-level menu built from a spec, an empty one included, reads back as exactly that spec. |
| MenuProperties.BuildInjective | resources/basemode.py:49-79 | Two specs that build the same menu are equal. |
| MenuProperties.BuiltChildrenWellFormed | resources/basemode.py:55-68 | No built child is a Back item. Every nested level is a submenu whose only Back item is its last child, at every depth. |
| MenuProperties.BuiltMenuWellFormed | resources/basemode.py:66-79 | Every built menu satisfies the Back policy at every depth. The top-level menu holds no Back. Each submenu holds exactly one Back, as its last child. |
| MenuProperties.BuiltBackCount | resources/basemode.py:56-68 | Children built from a spec hold exactly one Back item per submenu the spec declares, counted at every depth. |
| MenuProperties.MenuBackCount | resources/basemode.py:66-79 | A built menu holds as many Back items as its spec declares submenus. The top-level menu adds none. |
| MenuProperties.EmptySubmenuHoldsOnlyBack | resources/basemode.py:56-68 | An entry whose target is an empty list builds a submenu whose only child is Back. |
| MenuProperties.SettingsSubmenu | resources/basemode.py:56-68 | A Settings entry whose list holds Volume builds into a Settings submenu holding [Item Volume, Back]. |
| MenuProperties.PlaySettingsExample | resources/basemode.py:53-79 | Play plus a Settings submenu holding Volume builds into [Item Play, Submenu Settings [Item Volume, Back]]. |
| Accents.EncodeAsciiIgnore | resources/basemode.py:127-128 | The filtered text is all ASCII and no longer than its input. |
| Accents.SanitizeText | resources/basemode.py:124-130 | Sanitised text is all ASCII, whatever the normaliser returns. |
| Accents.RemoveAccents | resources/basemode.py:105-130 | It succeeds exactly when every value reachable through dicts is text or a dict. Otherwise it fails with UnsupportedInputType. A text is sanitised to the NFKD form of that text with every non-ASCII code point dropped. On success every text in the result is ASCII. Each dict keeps exactly its key set at every depth, and each value is the sanitised original value. |
| AccentsProperties.EncodeAppend | resources/basemode.py:127-128 | Filtering a concatenation is filtering each part and concatenating, so the filter decides code point by code point and keeps the order. |
| AccentsProperties.EncodeSingle | resources/basemode.py:127-128 | One code point is kept when it is ASCII and dropped otherwise. It is never substituted. |
| AccentsProperties.EncodeCounts | resources/basemode.py:127-128 | Each ASCII code point occurs in the output as often as in the input. No non-ASCII code point occurs in the output. |
| AccentsProperties.EncodeFixesExactlyAscii | resources/basemode.py:127-128 | The filter leaves a text unchanged if and only if the text is all ASCII. |
| AccentsProperties.EncodeIdempotent | resources/basemode.py:127-128 | Filtering twice is filtering once. |
| AccentsProperties.KeepAsciiPrefix | resources/basemode.py:127-128 | An ASCII prefix passes through the filter unchanged, ahead of the filtered rest. |
| AccentsProperties.DropNonAsciiHead | resources/basemode.py:127-128 | A leading non-ASCII code point is dropped and the rest is filtered. |
| AccentsProperties.AsciiTextUnchanged | resources/basemode.py:120-130 | Already-ASCII text is sanitised to itself, if NFKD leaves ASCII alone. |
| AccentsProperties.SanitizeTextIdempotent | resources/basemode.py:120-130 | Sanitising text twice gives the same as once, if NFKD leaves ASCII alone. |
| AccentsProperties.AsciiDataUnchanged | resources/basemode.py:115-130 | A supported value whose texts are all ASCII is returned unchanged, dicts at every depth included, if NFKD leaves ASCII alone. |
| AccentsProperties.RemoveAccentsIdempotent | resources/basemode.py:105-130 | When sanitising succeeds, sanitising its result again gives the same result, for text and for dicts nested to any depth, if NFKD leaves ASCII alone. |
| AccentsProperties.CafeExample | resources/basemode.py:124-130 | "café", decomposed to "cafe" plus a combining acute accent, is shown as "cafe". |
| AccentsProperties.DejaVuText | resources/basemode.py:124-130 | "Déjà vu", decomposed into base letters and combining accents, is shown as "Deja vu". |
| AccentsProperties.MetadataExample | resources/basemode.py:117-118 | {"a": "Déjà vu", "b": "plain"} is shown as {"a": "Deja vu", "b": "plain"}. The keys are kept. |

## Left out

- The LED: `pigpio` pin setup in the constructor (resources/basemode.py:24-25) and `toggle_led` (resources/basemode.py:94-95). These are hardware writes through a foreign library.
- `show_text` (resources/basemode.py:101-103). It only sanitises and then puts `(key, text)` on a thread-shared queue that is consumed elsewhere. That is I/O with concurrency semantics.
- The Unicode NFKD tables of `unicodedata.normalize` (resources/basemode.py:125). They are a foreign call, so the normaliser is a parameter. Idempotence of the whole sanitiser is proved under the stated assumption `FixesAscii` (NFKD maps ASCII text to itself).
- The Python 2 `str` to `unicode` coercion and the byte-string result of `.encode` (resources/basemode.py:121-122, 128). Text is a sequence of code points on both sides. In particular, the model leaves out the `UnicodeDecodeError` that `unicode(data)` raises on a byte string holding non-ASCII bytes.
- Lone surrogate code points. A Python 2 `unicode` string can hold them, but a Dafny `char` cannot.
- The internals of `RadioSubmenu`, `RadioMenuItem`, `RadioMenuMode`, `add_item` and `add_back_item` (module `menubase`, which is not part of this model). Back is a marker leaf. Its navigation target, the parent menu, is not modelled.
- The builder's two error paths (resources/basemode.py:53, 76). A mode that never sets a `menu` attribute makes `_get_menu_items` raise `AttributeError`, because the base class does not set it; the model only has `None` or a list. An entry that is not a `(text, target)` pair makes the loop's unpacking raise; the `Entry` datatype rules such entries out.
- `build_menu` (resources/basemode.py:31). It only stores the result of `_get_menu_items` on the mode.
- The empty lifecycle hooks `enter`, `exit` and `get_metadata` (resources/basemode.py:33-47, 81-86).
