# Colour naming and hex notation of an image colour picker

The colour picker shows an image, and when the user clicks a pixel it reports
that pixel's colour in several notations. This project models the
integer-valued part of that report, which is three pure computations:

- the **hex field**, `'#{:02x}{:02x}{:02x}'` applied to the red, green and blue
  channels. This is the `#rrggbb` notation of section 4.2.1 of CSS Color
  Module Level 3. `{:02x}` is modelled for every non-negative integer, and
  `ParseHex` decodes the notation as its inverse;
- **`closest_color`**, the entry of the named-colour table whose RGB value is
  nearest to the pixel by squared Euclidean distance. The choice is made as
  Python's `min` makes it: a left-to-right scan that keeps the first minimal
  entry;
- the **name choice** in `get_color`. It tries an exact lookup of the pixel's
  RGB value (`webcolors.rgb_to_name`) first and falls back to `closest_color`
  only when that lookup raises.

The named-colour table, which is the extended colour keyword set of section
4.3 of CSS Color Module Level 3 in the program, is a parameter: a sequence of
(name, RGB) entries in the order the program iterates them. Failures the
program signals by raising become `None`.

Modules: `Wrappers` (Option), `Pixel` (RGB triples and the table),
`HexColor`, `NearestColor` and `NameSelection`.

## Model

| member | source | states |
|---|---|---|
| HexColor.HexNumeral | main.py:199 | the hex digits of n are lower-case, have no leading zero, and denote n; there is one digit iff n < 16 and at most two iff n < 256 |
| HexColor.Format02x | main.py:199 | `{:02x}` gives at least two lower-case digits that denote n; it gives exactly two iff n is a byte, and a longer result has no leading zero |
| HexColor.Format02xOfByte | main.py:199 | a byte is written as its high nibble digit followed by its low nibble digit, zero-padded |
| HexColor.ToHex | main.py:199 | the hex field is '#' followed by lower-case hex digits; it is exactly 7 characters long iff all three channels are bytes |
| HexColor.ToHexLayout | main.py:199 | for byte channels the field is '#' then two digits for red, two for green and two for blue, each pair high nibble first |
| HexColor.ParseHex | main.py:199 | the decoder accepts exactly '#' plus six hex digits and always yields byte channels |
| HexColor.ParseToHex | main.py:199 | decoding digit pairs 1-2, 3-4 and 5-6 of the hex field gives back r, g and b exactly |
| HexColor.ToHexOfPairs | main.py:199 | three lower-case digit pairs, read as channels, are written back as `#` followed by the same three pairs |
| HexColor.ToHexParse | main.py:199 | every lower-case `#rrggbb` string is the hex field of the triple it decodes to |
| HexColor.ToHexInjective | main.py:199 | distinct byte triples have distinct hex fields |
| NearestColor.Distance | main.py:25-26 | the sum of squared channel differences is never negative, is zero iff the two triples are equal, and is at least each channel's squared difference |
| NearestColor.DistanceSymmetric | main.py:25-26 | the distance does not depend on the argument order |
| NearestColor.ClosestIndex | main.py:28-31 | the scan that `min` performs over a non-empty table settles on an entry that no entry is strictly nearer than, and every earlier entry is strictly farther (first wins on ties) |
| NearestColor.FirstNearestUnique | main.py:28-31 | at most one entry is nearest with every earlier entry strictly farther, so the tie-break fixes the answer |
| NearestColor.ClosestColor | main.py:24-32 | `closest_color` fails iff the table is empty; otherwise it returns the name of the first nearest entry |
| NearestColor.ClosestOfExact | main.py:24-32 | when some entry's RGB equals the query, the chosen entry's RGB equals the query |
| NameSelection.ExactName | main.py:203 | the exact lookup succeeds iff some entry has the pixel's RGB, and then it returns the name of such an entry |
| NameSelection.SelectName | main.py:202-205 | the exact name is used whenever one exists; the result fails only on an empty table; the reported name belongs to the table |
| NameSelection.SelectNameIsNearest | main.py:202-205 | on either branch the reported name labels an entry at the least distance from the pixel (a nearest entry), and an entry equal to the pixel when one exists |
| NameSelection.FallbackOnlyWithoutExact | main.py:202-205 | without an exact match the report is the `closest_color` answer, and every entry is at a positive distance |

## Left out

- `rgb_to_cmyk` (main.py:7-18) and `rgb_to_hsl` (main.py:20-22) are not modelled. They compute with floating point, and HSL also goes through `colorsys`. Their rounding is Python's round-half-to-even on inexact floats, which does not carry over to integers or reals.
- The Tkinter window, widgets, event bindings, mode switches, scrolling, clipboard and the info panel (main.py:34-188, 206-220) are not modelled. They are user interface code with no statable logic.
- Image loading and rendering (`upload_image`, `render_image`) and the zoom and click-to-pixel arithmetic (main.py:105-145, 191-198) are not modelled. They are file I/O, foreign library calls and floating-point scaling. The model takes the pixel's channels as its input.
- The contents of the webcolors CSS3 table are not modelled. The table is a parameter, in the order `webcolors.names` lists it.
- `closest_color` finds each name's RGB with `webcolors.name_to_rgb`. The model uses the entry's own RGB instead, which is the same because the names of the table are distinct keys.
- NameSelection.ExactName: `rgb_to_name` returns a canonical alias when two names share an RGB value (gray and grey, for example). The contract states only that the returned name's RGB equals the query, not which alias is returned. The body returns the first matching entry in table order, so for colours that share an RGB value the reported name follows table order, which need not be the alias webcolors itself would choose. `rgb_to_name` also clamps channels to 0-255 first, which changes nothing for the byte channels an image yields.
- The `#rrggbb` decoder `ParseHex` is not part of the program. It is the inverse against which the hex field is proved.
- The order used to break ties follows the code, not a prescribed order: it is the order of the table as the program iterates it. Alphabetical order is not assumed.
