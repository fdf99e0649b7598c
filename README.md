# Curtain: a verified model of the maintenance-mode plugin's decision core

Curtain is a WordPress plugin that hides a site behind a maintenance notice.
When the curtain is up, anonymous visitors get a 503 status and a static page.
Logged-in users and the login page are not affected. Administrators switch the
curtain from the admin bar, edit the notice on a settings page, and choose
which roles may switch it; those roles hold the `manage_curtain` capability.

This project models the part of `main.php` that makes decisions. WordPress
itself is reduced to two pieces of state:

- the stored `curtain` option: an ordered record of key/value entries
  (`OptionsRecord.Record`), or no option at all;
- the set of roles holding `manage_curtain`, drawn from the site's role
  table, which is kept in its order.

Both live in the class `Curtain.Site`. Its methods are the plugin's
operations: `activate`, `deactivate`, `caps`, `set_mode`, the reset and
toggle branches of `admin_init`, `settings::sanitize` and `need_reset`.
Each method is specified by functions of the old state: `Defaults`,
`Put`, `Merge`, `HoldersAfter` and `LooksReset`. The lemmas about those
functions carry the plugin's promises. The pure parts are plain
functions:

- the maintenance gate of `init` (`Curtain.Gate`);
- the black/white text choice (`Contrast.Contrast`), which uses the YIQ luma
  with the ITU-R BT.601 weights 0.299, 0.587 and 0.114;
- the query-parameter removal of `current_url` (`QueryArgs.Strip`);
- the PHP semantics these rely on (`PhpValues`): truthiness, `is_numeric`,
  `intval` and loose `==`.

Modules: `PhpValues` (php_values.dfy), `OptionsRecord` (options_record.dfy),
`Contrast` (contrast.dfy), `QueryArgs` (query_args.dfy) and `Curtain`
(curtain.dfy).

Three behaviours of `main.php` are easy to misread, and the model states each
one as the code has it:

- `sanitize` stores every submitted key except `roles` (main.php:445), so
  the record grows by any extra field a request carries, beyond the four the
  settings form shows (`Curtain.MergeKeys`).
- The admin-bar link only ever sends `curtain=0` or `curtain=1`
  (main.php:221), but the toggle stores `intval` of whatever value arrives,
  unclamped (main.php:367; `Curtain.ToggleDoesNotClamp`).
- Submitting `roles` replaces the capability holders outright, but only
  roles present in the role table can receive it. For any other role
  `get_role` returns null (main.php:441). The model requires submitted roles
  to be known and keeps the holders inside the table as an invariant
  (`Curtain.Site.Valid`).

One consequence of the code's order-sensitive comparison is stated as a
lemma. After a reset, `need_reset` still reports a difference unless the role
table lists `administrator` before `editor` (`Curtain.ResetStateLooksReset`).
WordPress's stock role table does list them in that order.

## Model

| member | source | states |
|---|---|---|
| `PhpValues.IntValOfDecimal` | main.php:445 | the decimal text of any integer is numeric, and `intval` reads it back as that integer |
| `PhpValues.LooseEqualsPlainText` | main.php:295 | against a non-empty, non-numeric string, PHP's loose `==` is exact equality |
| `PhpValues.LooseEqualsPlainList` | main.php:295 | against a list of non-empty, non-numeric strings (the empty list included), loose `==` on lists is exact equality |
| `OptionsRecord.LookupAt` | main.php:167-172 | in a record with distinct keys, looking up an entry's key yields that entry's value |
| `OptionsRecord.PutLookup` | main.php:67 | `$options[$k] = $v` changes what `k` reads to `v` and leaves every other key's value unchanged |
| `OptionsRecord.PutKeys` | main.php:445 | assignment keeps the key order when the key exists and appends the key at the end otherwise |
| `OptionsRecord.PutSame` | main.php:357-358 | writing back the value a key already has leaves the record identical, which is the no-change case of `update_option` |
| `OptionsRecord.PutPut` | main.php:67 | a second write to the same key overrides the first |
| `Contrast.HexIntValOfPair` | main.php:247-249 | `intval( substr(...), 16 )` of two hex digits is 16·high + low |
| `Contrast.ChannelOfSixDigits` | main.php:247-249 | for a six-hex-digit colour, channel k is the byte given by digits 2k and 2k+1, in 0..255 |
| `Contrast.LumaThreshold` | main.php:251-253 | `luma / 1000 >= 140` is the integer test `299R + 587G + 114B >= 140000` |
| `Contrast.ContrastOfSixDigits` | main.php:245-255 | for every six-hex-digit colour, `contrast` is black exactly when 299R + 587G + 114B >= 140000 |
| `Contrast.ContrastOfHexColor` | main.php:245-255 | `rrggbb` gets black text exactly when 299r + 587g + 114b >= 140000, for all bytes r, g, b |
| `Contrast.ContrastMonotone` | main.php:251-253 | raising any channel never turns black text into white |
| `Contrast.WhiteBackgroundBlackText` | main.php:253 | `ffffff` gets black text |
| `Contrast.BlackBackgroundWhiteText` | main.php:253 | `000000` gets white text |
| `Contrast.BoundaryLumaBlackText` | main.php:253 | a luma of exactly 140 (`01e724`) gets black text |
| `Contrast.NoticeTextColorOfHash` | main.php:257 | for a stored background `#hex`, the text colour is `contrast( hex )` |
| `QueryArgs.MatchLength` | main.php:57 | a match is either absent or at least `name` plus three characters long, and never runs past the end |
| `QueryArgs.Strip` | main.php:57 | removing the parameter never makes the URL longer |
| `QueryArgs.StripUnchanged` | main.php:56-58 | the URL is unchanged exactly when `([?&])name=[^&]+(&\|$)` matches at no position |
| `QueryArgs.CurrentUrlUnchanged` | main.php:56-58 | `current_url( $remove )` returns the URL unchanged exactly when `$remove` is falsy or the pattern for it matches at no position |
| `QueryArgs.StripShorter` | main.php:57 | wherever the pattern matches, the result is strictly shorter |
| `QueryArgs.StripWithoutDelimiter` | main.php:57 | a URL without `?` or `&` is returned unchanged |
| `QueryArgs.StripPrefix` | main.php:57 | text in which no match starts is copied unchanged in front of the stripped rest |
| `QueryArgs.StripFirstParameter` | main.php:57 | `?curtain=1&page=x` becomes `?page=x`: the pair and its trailing `&` go, and the `?` stays |
| `QueryArgs.StripAdjacentOccurrences` | main.php:57 | in `?curtain=1&curtain=2` only the first pair is removed, because the first match consumes the `&` the second would need |
| `Curtain.DefaultsShape` | main.php:73-90 | `defaults()` has the keys mode, background, heading and description, in that order, with mode 0; `defaults( 1 )` is the same without the leading mode entry |
| `Curtain.DefaultBackgroundWithoutThemeColor` | main.php:75-79 | with an empty or `"0"` theme colour the default background is `#ffffff`, and the notice text on it is black |
| `Curtain.Gate` | main.php:195-203 | the request proceeds exactly when the mode is falsy, the visitor is logged in, or the page is `wp-login.php`; a refused request always carries status 503 |
| `Curtain.Site.Init` | main.php:191-205 | the request proceeds iff the stored mode is falsy, the user is logged in, or the page is `wp-login.php` |
| `Curtain.GateAfterToggle` | main.php:365-367 | after the toggle, an anonymous visitor away from the login page gets 503 exactly when `intval( curtain )` is not 0, and every other request proceeds |
| `Curtain.GateAfterReset` | main.php:350-359 | a reset does not change the gate's answer to any request |
| `Curtain.CoerceDecimal` | main.php:445 | a submitted integer in decimal is stored as that integer |
| `Curtain.MergeUntouched` | main.php:431-450 | a field not submitted keeps its stored value, and so does `roles` |
| `Curtain.MergeSubmitted` | main.php:433-446 | each submitted field other than `roles` is stored with its coerced value: an integer if numeric, the text unchanged otherwise |
| `Curtain.MergeKeys` | main.php:431-450 | stored keys keep their order as a prefix, new keys come only from the submission, `roles` is never added, and distinct keys stay distinct |
| `Curtain.HoldersUnchanged` | main.php:435-442 | without a `roles` field the capability holders are unchanged |
| `Curtain.HoldersReplaced` | main.php:435-442 | with `roles` = R the holders become exactly R when they were all in the role table (full replace, not incremental) |
| `Curtain.EditorOnlySubmission` | main.php:435-442 | submitting roles `[editor]` leaves exactly `{editor}` holding the capability |
| `Curtain.PairInTableOrder` | main.php:285-291 | when administrator and editor hold the capability, `$actual` lists them in role-table order |
| `Curtain.ManagerListEquals` | main.php:295 | `$actual == caps()` holds exactly when `$actual` is `[administrator, editor]` |
| `Curtain.DefaultTextsPlain` | main.php:77-82 | the default background, heading and description are non-empty and not numeric |
| `Curtain.SameAsDefaults` | main.php:293-295 | a record equals `defaults( 1 )` under `==` exactly when it has three entries holding the default values, in any order |
| `Curtain.ResetStateLooksReset` | main.php:279-301 | right after a reset, `need_reset` finds no difference exactly when administrator precedes editor in the role table |
| `Curtain.ResetRecord` | main.php:350-359 | the reset record is `defaults()` with only `mode` replaced by the old mode: same key order, other fields at their defaults, `defaults( 1 )` once shifted |
| `Curtain.ToggleRoundTrip` | main.php:365-372 | switching mode 0 → 1 → 0 gives back the original record |
| `Curtain.ToggleDoesNotClamp` | main.php:367 | `curtain=2` stores mode 2, not 1 |
| `Curtain.Site.GrantEach` | main.php:133-135 | the `add_cap` loop adds exactly the listed roles to the holders |
| `Curtain.Site.RevokeAll` | main.php:139-141 | the `remove_cap` loop removes every role of the table from the holders |
| `Curtain.Site.Caps` | main.php:120-149 | 1 grants to administrator and editor, 2 revokes from every role, and any other argument changes nothing and returns `[administrator, editor]` |
| `Curtain.Site.Activate` | main.php:151-158 | the defaults are stored only when no option exists, because `add_option` does not overwrite; administrator and editor gain the capability |
| `Curtain.Site.Deactivate` | main.php:160-165 | the option is gone and no role holds the capability |
| `Curtain.Site.SetMode` | main.php:64-71 | the stored record gets the new `mode`, and the result is true exactly when the stored option changed |
| `Curtain.Site.Reset` | main.php:350-362 | the record is `defaults()` with the pre-reset mode, and the holders are exactly {administrator, editor} |
| `Curtain.Site.Toggle` | main.php:365-374 | mode becomes `intval( curtain )`, everything else is unchanged, and it redirects (with `curtain` stripped and `mode` added) only when the stored value changed |
| `Curtain.Site.AdminInit` | main.php:348-380 | reset then toggle in one request; the toggle's redirect overrides the reset's and is the only one that exits |
| `Curtain.Site.Sanitize` | main.php:429-452 | returns the submission merged over the stored record and leaves the holders as `HoldersAfter` says |
| `Curtain.Site.SubmitSettings` | main.php:416 | saving the form stores the sanitized record and applies the role replacement |
| `Curtain.Site.NeedReset` | main.php:279-301 | shows the reset button exactly when the record without its first field differs from `defaults( 1 )` or the holders in table order differ from `[administrator, editor]` |
| `Curtain.ResetThenCheck` | main.php:350-359 | after a reset, the reset button is hidden exactly when administrator precedes editor in the role table |
| `Curtain.ToggleOnThenOff` | main.php:365-372 | toggling on and then off restores the stored option, and both toggles redirect |

## Left out

- `assets/admin.js`: colour picker and button behaviour in the browser; there is no decision logic in it.
- HTML rendering: `load_options`, the field renderers, `admin_notices`, `links`, `head`/`footer`, the enqueue methods apart from `contrast`, and the admin-bar node built by `admin_bar_menu`. This includes its link built with `current_url( 'activate' )`.
- Hook registration, textdomain loading and translation: the heading and description are the untranslated English texts, with `&#8212;` substituted into the description.
- Host calls: `get_option`, `update_option`, `add_option`, `delete_option`, `get_role`, `add_cap`, `remove_cap`, `get_background_color` and `get_admin_url` become the fields and parameters of `Curtain.Site`. `wp_redirect`, `add_query_arg` and `admin_url` become the `Redirect` values. `header( ... 503 ... )` with `die( include notice.php )` becomes `Unavailable(503)`. `notice.php` is not part of this model.
- A missing option: PHP casts `false` to `[0 => false]`, and the model reads it as the empty record. Writing `mode` or sanitizing when no option exists therefore yields a record without PHP's extra `0 => false` entry.
- `PhpValues.IsNumeric` and `PhpValues.IntVal` cover whitespace, an optional sign and decimal digits only. Decimal points, exponents (`"1e3"`, `"1.5"`) and integer overflow are not modelled. Integers are unbounded.
- `PhpValues.LooseEquals` compares numeric strings through that restricted `IntVal`. PHP's float comparison of forms like `"1.0"` is not modelled. Integer-like array keys (`"0"` becoming `0`) are not modelled either.
- `Contrast.Substr`: strings are modelled as sequences of characters, while PHP's `substr` counts bytes. For a background with non-ASCII characters the channels read by `Contrast.Channel` can differ from PHP's. ASCII backgrounds, including every `#rrggbb` colour, are not affected.
- `Contrast.Luma` divides exactly where PHP uses floating point. For channels in 0..255 the two give the same decision (`Contrast.LumaThreshold`).
- `QueryArgs.Strip` treats the parameter name literally. `main.php` puts it into the regular expression unescaped, but both call sites pass a plain word.
- `Curtain.Site.Sanitize` and `Curtain.Site.SubmitSettings` require every role submitted under `roles` to be in the role table. For any other role, `get_role` returns null and PHP stops with a fatal error part-way through.
- `Curtain.Site.Caps` takes a `CapsAction` where `caps( $add )` compares an arbitrary argument loosely with 1 and 2. Only the three outcomes are modelled, not which argument values lead to each.
- Request termination: `Curtain.Site.AdminInit` reports whether the request exits. Everything after that, including the registration of the settings page (`new Settings`), is outside the model.
