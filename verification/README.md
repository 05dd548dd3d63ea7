# AxolotlClient core, modelled in Dafny

AxolotlClient is a Minecraft client mod. It is built for several game
versions (1.8.9, 1.21, 1.21.4) that share a `common` part. This project
models the deterministic logic behind its modules and proves properties of
that logic. Each modelled source file gets one Dafny module:

- `Coords` is the coordinates HUD: the compass direction, the X/Z hints and
  the biome name.
- `Util` holds the utility helpers: ticks between two times of day,
  splitting at capitals, linear interpolation and Roman numerals.
- `ItemUtil` is the item counting behind the item-update HUD.
- `Toasts` is the toast manager's slot allocation.
- `Traps` is the Bed Wars trap queue and its prices.
- `Draw` is DrawUtil's rectangle, outline, blit, tiling and nine-slice
  painting, modelled as the set of pixels each call covers.
- `Gallery` is the screenshot gallery's column layout, row reflow and image
  cache.
- `Keystrokes` is the keystroke HUD's labels, layout and JSON
  (de)serialisation.
- `Api` covers the API's UUID validation and URL building.
- `FpsLimiter` is the unfocused-window frame and volume limiter.
- `ToggleSprint` is the toggle-sprint/sneak key handling.
- `ScrollArea` is the news screen's scrollable text area.
- `Chat` is the API chat window's message rows and scrolling.
- `Scoreboard` is the scoreboard HUD's row selection and layout.
- `Skybox` is a custom sky's fade-in/fade-out alpha and its blend names.
- `FeatureDisabler` is the server-driven option bans.
- `Zoom` is the zoom module.
- `HudEntry` is a HUD element's stored position and on-screen placement.

Two helper modules support the rest:

- `Base` writes out Java's semantics: truncating `/` and `%`, float-to-int
  casts, `Math.round`, clamps, 32-bit ints, ASCII case mapping and string
  helpers.
- `Sorting` is a stable insertion sort, standing in for `List.sort`.

Game state, rendering and the network are inputs and outputs of pure
functions. Floating point is modelled as exact real arithmetic.

The code had no separate written specification of these modules, so the
model follows the code, with one exception. Where the code is evidently
wrong (see "## Findings"), two members stand side by side: an as-written
member that models the code, and a corrected member that models the
intended behaviour. The rest of the model uses the corrected one. These
are Draw.FillRectColor, Api.GetUrl, and Zoom.RestoreOptions, Zoom.Stop and
Zoom.Update.

## Model

| member | source | states |
|---|---|---|
| Coords.NormaliseYaw | 1.21.4/src/main/java/io/github/axolotlclient/modules/hud/gui/hud/CoordsHud.java:80-84 | the yaw brought into [0, 360) is the yaw modulo 360 as a floored remainder |
| Coords.Direction | 1.21.4/src/main/java/io/github/axolotlclient/modules/hud/gui/hud/CoordsHud.java:79-102 | the direction is one of the eight compass points 1..8 and agrees with an independent 45-degree sector formula |
| Coords.BucketMatchesSector | 1.21.4/src/main/java/io/github/axolotlclient/modules/hud/gui/hud/CoordsHud.java:85-101 | the if-chain of half-open 45-degree buckets picks the same point as the sector formula for every normalised yaw |
| Coords.DirectionPeriodic | 1.21.4/src/main/java/io/github/axolotlclient/modules/hud/gui/hud/CoordsHud.java:80-84 | turning a full circle either way does not change the direction |
| Coords.NorthWrapsAround | 1.21.4/src/main/java/io/github/axolotlclient/modules/hud/gui/hud/CoordsHud.java:85-98 | yaws just below 360 and just above 0 both read as north |
| Coords.WordedDirection | 1.21.4/src/main/java/io/github/axolotlclient/modules/hud/gui/hud/CoordsHud.java:238-251 | "?" exactly for the unknown direction 0, nothing exactly outside 0..8, and for the eight points a one-letter cardinal or two-letter intercardinal word over N, E, S and W |
| Coords.XDir | 1.21.4/src/main/java/io/github/axolotlclient/modules/hud/gui/hud/CoordsHud.java:104-112 | the X hint is one of "++", "+", "-", "--" or nothing, and among the eight points it is empty exactly for due north and due south |
| Coords.ZDir | 1.21.4/src/main/java/io/github/axolotlclient/modules/hud/gui/hud/CoordsHud.java:114-122 | the Z hint is one of "++", "+", "-", "--" or nothing, and among the eight points it is empty exactly for due east and due west |
| Coords.OppositeHints | 1.21.4/src/main/java/io/github/axolotlclient/modules/hud/gui/hud/CoordsHud.java:104-122 | facing the opposite way flips the sign of both hints and changes the worded direction |
| Coords.ZIsXTurned | 1.21.4/src/main/java/io/github/axolotlclient/modules/hud/gui/hud/CoordsHud.java:104-122 | the Z hint of a direction is the X hint of the direction a quarter turn anticlockwise |
| Coords.HintsFollowWords | 1.21.4/src/main/java/io/github/axolotlclient/modules/hud/gui/hud/CoordsHud.java:104-122 | the X and Z hints point the way the worded direction says; both are empty outside 1..8, and the word is empty exactly outside 0..8 |
| Coords.BiomeName | 1.21.4/src/main/java/io/github/axolotlclient/modules/hud/gui/hud/CoordsHud.java:211-236 | a missing biome is "Unknown"; otherwise the name has the raw path's length, has no underscore, and each character is the raw one, a space, or title-cased at a word start |
| Coords.TitleCaseSpec | 1.21.4/src/main/java/io/github/axolotlclient/modules/hud/gui/hud/CoordsHud.java:221-235 | title-casing upper-cases exactly the characters that start a word and keeps every other one |
| Util.TicksBetween | 1.8.9/src/main/java/io/github/axolotlclient/util/Util.java:69-73 | the ticks from a time of day to the same time are 0; between two times on the clock they lie in [0, 24000) and lead from the start to the end |
| Util.TicksAroundTheClock | 1.8.9/src/main/java/io/github/axolotlclient/util/Util.java:69-73 | going from a to b and from b to a adds up to a whole day, or to 0 when both are the same time |
| Util.SplitAtCapitals | 1.8.9/src/main/java/io/github/axolotlclient/util/Util.java:123-135 | a null or empty text gives ""; otherwise the result keeps the first character and is no shorter than the text |
| Util.UnsplitSplit | 1.8.9/src/main/java/io/github/axolotlclient/util/Util.java:127-134 | removing the inserted spaces gives back the input |
| Util.SplitLength | 1.8.9/src/main/java/io/github/axolotlclient/util/Util.java:127-134 | the result is longer than the input by exactly the number of split points |
| Util.Lerp | 1.8.9/src/main/java/io/github/axolotlclient/util/Util.java:252-254 | interpolation gives the start at 0, the end at 1, and stays between them for deltas in [0, 1] |
| Util.LerpSymmetric | 1.8.9/src/main/java/io/github/axolotlclient/util/Util.java:252-254 | interpolating from a to b by d equals interpolating from b to a by 1 - d |
| Util.ToRoman | 1.8.9/src/main/java/io/github/axolotlclient/util/Util.java:256-264 | the numeral is empty for numbers below 1 and otherwise equals an independent digit-by-digit reference numeral |
| Util.ToRomanIsStandard | 1.8.9/src/main/java/io/github/axolotlclient/util/Util.java:257-261 | the string of I's with its replacements gives the standard subtractive numeral, digit by digit, for 1..3999 |
| Util.ToRomanAlphabet | 1.8.9/src/main/java/io/github/axolotlclient/util/Util.java:257-261 | the numeral uses only the letters I, V, X, L, C, D and M |
| Util.RomanExamples | 1.8.9/src/main/java/io/github/axolotlclient/util/Util.java:257-261 | 4, 9 and 14 come out as IV, IX and XIV |
| Util.RomanSubtractiveExamples | 1.8.9/src/main/java/io/github/axolotlclient/util/Util.java:257-261 | 40, 90 and 400 come out as XL, XC and CD |
| Util.RomanYearExample | 1.8.9/src/main/java/io/github/axolotlclient/util/Util.java:257-261 | 1994 comes out as MCMXCIV |
| Util.RomanLargestExample | 1.8.9/src/main/java/io/github/axolotlclient/util/Util.java:257-261 | 3999 comes out as MMMCMXCIX |
| ItemUtil.MakeStorage | 1.8.9/src/main/java/io/github/axolotlclient/modules/hud/util/ItemUtil.java:393-398 | a new storage holds a one-item copy of the stack's item and data, with the given count |
| ItemUtil.CopyStorage | 1.8.9/src/main/java/io/github/axolotlclient/modules/hud/util/ItemUtil.java:404-406 | the copy has the same item and count as a one-item stack, and equals a storage that already has one |
| ItemUtil.GetItemFromItem | 1.8.9/src/main/java/io/github/axolotlclient/modules/hud/util/ItemUtil.java:115-124 | there is no match exactly when no storage has the kind; otherwise the match is the first storage with the kind |
| ItemUtil.StorageFromItems | 1.8.9/src/main/java/io/github/axolotlclient/modules/hud/util/ItemUtil.java:152-167 | there is one storage per kind, each counts the summed sizes of that kind's stacks, and the kinds are exactly those of the stacks |
| ItemUtil.AddStackFacts | 1.8.9/src/main/java/io/github/axolotlclient/modules/hud/util/ItemUtil.java:154-165 | adding a stack raises its kind's count by its size, adds the kind when it is new, and leaves the other kinds alone |
| ItemUtil.GetTotal | 1.8.9/src/main/java/io/github/axolotlclient/modules/hud/util/ItemUtil.java:65-77 | the total is 0 without an inventory or item, and otherwise sums the sizes of the matching stacks |
| ItemUtil.TotalMatchesStorage | 1.8.9/src/main/java/io/github/axolotlclient/modules/hud/util/ItemUtil.java:65-77 | the total for a kind equals the count that the storage list built from the same stacks records for it |
| ItemUtil.Compare | 1.8.9/src/main/java/io/github/axolotlclient/modules/hud/util/ItemUtil.java:98-113 | the report is no longer than the new list, holds one-item stacks, and names only kinds of the new list |
| ItemUtil.CompareConcat | 1.8.9/src/main/java/io/github/axolotlclient/modules/hud/util/ItemUtil.java:98-113 | comparing a concatenation reports the first part's kinds before the second's, each as if compared alone |
| ItemUtil.CompareMissing | 1.8.9/src/main/java/io/github/axolotlclient/modules/hud/util/ItemUtil.java:108-110 | a kind that is new since the previous inventory is reported with its full count |
| ItemUtil.CompareFound | 1.8.9/src/main/java/io/github/axolotlclient/modules/hud/util/ItemUtil.java:101-107 | a kind that grew is reported with the increase, and a kind that did not grow is not reported |
| ItemUtil.CompareIsDifference | 1.8.9/src/main/java/io/github/axolotlclient/modules/hud/util/ItemUtil.java:98-113 | the reported count of each kind is the new count minus the old count, cut off at zero |
| ItemUtil.RemoveOld | 1.8.9/src/main/java/io/github/axolotlclient/modules/hud/util/ItemUtil.java:130-138 | exactly the entries whose age is at most the time limit are kept |
| ItemUtil.RemoveOldConcat | 1.8.9/src/main/java/io/github/axolotlclient/modules/hud/util/ItemUtil.java:130-138 | pruning a concatenation prunes each part |
| ItemUtil.RemoveOldIdempotent | 1.8.9/src/main/java/io/github/axolotlclient/modules/hud/util/ItemUtil.java:130-138 | pruning twice at the same time prunes nothing more |
| Toasts.FindFreeSlotsIndex | 1.8.9/src/main/java/io/github/axolotlclient/util/notifications/toasts/ToastManager.java:91-105 | the index found starts a run of free slots of the requested length, and no lower index does; -1 means no run exists |
| Toasts.NoRunWhenTooFull | 1.8.9/src/main/java/io/github/axolotlclient/util/notifications/toasts/ToastManager.java:92 | when fewer slots are free than requested, no run exists |
| Toasts.RunNeedsFreeSlots | 1.8.9/src/main/java/io/github/axolotlclient/util/notifications/toasts/ToastManager.java:92 | a free run of length i needs at least i free slots, so the early free-count exit never loses a run |
| Toasts.FreeSlotsCounted | 1.8.9/src/main/java/io/github/axolotlclient/util/notifications/toasts/ToastManager.java:107-109 | the free-slot count is the number of on-screen slots that are not occupied |
| Toasts.ScanFindsLowestRun | 1.8.9/src/main/java/io/github/axolotlclient/util/notifications/toasts/ToastManager.java:95-101 | the counting scan returns the lowest start of a free run of the requested length |
| Toasts.Unfinished | 1.8.9/src/main/java/io/github/axolotlclient/util/notifications/toasts/ToastManager.java:57-65 | exactly the visible toasts whose animation has not finished stay |
| Toasts.ClearFinishedExact | 1.8.9/src/main/java/io/github/axolotlclient/util/notifications/toasts/ToastManager.java:57-65 | removing finished toasts frees exactly the slots they covered |
| Toasts.SplitCovered | 1.8.9/src/main/java/io/github/axolotlclient/util/notifications/toasts/ToastManager.java:57-65 | the slots of finished and unfinished toasts partition the covered slots |
| Toasts.ClearKeepsValid | 1.8.9/src/main/java/io/github/axolotlclient/util/notifications/toasts/ToastManager.java:57-65 | after the clean-up the occupied slots are exactly those the remaining toasts cover, without overlap |
| Toasts.PlaceValid | 1.8.9/src/main/java/io/github/axolotlclient/util/notifications/toasts/ToastManager.java:66-78 | placing queued toasts keeps the toasts on screen, pairwise disjoint and matching the occupied slots |
| Toasts.Place | 1.8.9/src/main/java/io/github/axolotlclient/util/notifications/toasts/ToastManager.java:66-78 | placing keeps the occupied slots on screen and never removes a visible toast |
| Toasts.Taken | 1.8.9/src/main/java/io/github/axolotlclient/util/notifications/toasts/ToastManager.java:68-76 | a toast's turn takes no slot when no run fits it, and otherwise exactly its slot count of new on-screen slots |
| Toasts.OccAt | 1.8.9/src/main/java/io/github/axolotlclient/util/notifications/toasts/ToastManager.java:67-77 | the occupied slots at any turn of the queue stay on screen and only grow |
| Toasts.PlaceTurns | 1.8.9/src/main/java/io/github/axolotlclient/util/notifications/toasts/ToastManager.java:67-77 | each queued toast, at its turn, is shown at the lowest free run of its size in the slots occupied then, and is kept in the queue, in its place, when there is none |
| Toasts.PlaceTotals | 1.8.9/src/main/java/io/github/axolotlclient/util/notifications/toasts/ToastManager.java:67-77 | after placing, the occupied slots are those of the last turn, and the shown and kept toasts add up to the queue |
| Toasts.PlaceConserves | 1.8.9/src/main/java/io/github/axolotlclient/util/notifications/toasts/ToastManager.java:67-77 | every queued toast ends up either on screen or still queued, so the visible and queued counts add up to what they were before placing |
| Toasts.PlaceLeavesNoRoom | 1.8.9/src/main/java/io/github/axolotlclient/util/notifications/toasts/ToastManager.java:67-77 | placing only adds slots, and no kept toast has a free run in the final slots |
| Toasts.PlaceNoRoom | 1.8.9/src/main/java/io/github/axolotlclient/util/notifications/toasts/ToastManager.java:67-77 | when no queued toast fits the starting slots, placing changes nothing |
| Toasts.NothingShownIffNoRoom | 1.8.9/src/main/java/io/github/axolotlclient/util/notifications/toasts/ToastManager.java:67-77 | nothing is shown exactly when no queued toast has a free run in the starting slots |
| Toasts.PlaceFifo | 1.8.9/src/main/java/io/github/axolotlclient/util/notifications/toasts/ToastManager.java:66-78 | the toasts shown and the toasts kept waiting are an order-preserving split of the queue |
| Toasts.PlaceExtends | 1.8.9/src/main/java/io/github/axolotlclient/util/notifications/toasts/ToastManager.java:66-78 | toasts already visible stay in front, in order |
| Toasts.PlaceKeepsQueueShort | 1.8.9/src/main/java/io/github/axolotlclient/util/notifications/toasts/ToastManager.java:66-78 | the queue never grows while placing |
| Toasts.ShowKeepsValid | 1.8.9/src/main/java/io/github/axolotlclient/util/notifications/toasts/ToastManager.java:73-74 | showing a toast in a free run keeps the slot bookkeeping consistent |
| Toasts.Update | 1.8.9/src/main/java/io/github/axolotlclient/util/notifications/toasts/ToastManager.java:56-79 | a tick keeps the manager consistent, keeps the unfinished toasts in front, and does not grow the queue |
| Toasts.UpdateFifo | 1.8.9/src/main/java/io/github/axolotlclient/util/notifications/toasts/ToastManager.java:66-78 | a tick shows a prefix-respecting share of the queue and keeps the rest in order |
| Toasts.UpdateIsPlace | 1.8.9/src/main/java/io/github/axolotlclient/util/notifications/toasts/ToastManager.java:56-79 | a tick clears the finished toasts and then places the whole queue; the free-count guard changes nothing, because a queue with no free slot places nothing |
| Toasts.UpdateTurns | 1.8.9/src/main/java/io/github/axolotlclient/util/notifications/toasts/ToastManager.java:56-79 | in a tick, each queued toast is shown at the lowest free run of its size at its turn, and is kept in its place when there is none |
| Toasts.UpdateLeavesNoRoom | 1.8.9/src/main/java/io/github/axolotlclient/util/notifications/toasts/ToastManager.java:56-79 | after a tick no toast left in the queue has a free run of its size |
| Toasts.Clear | 1.8.9/src/main/java/io/github/axolotlclient/util/notifications/toasts/ToastManager.java:129-133 | clearing empties the screen, the slots and the queue |
| Toasts.AddToast | 1.8.9/src/main/java/io/github/axolotlclient/util/notifications/toasts/ToastManager.java:135-137 | adding queues the toast at the end and changes nothing on screen |
| Traps.GetFuzzy | 1.8.9/src/main/java/io/github/axolotlclient/modules/hypixel/bedwars/upgrades/TrapUpgrade.java:140-152 | a trap is recognised by a lower-case key word contained in the lower-cased name, and the plain trap is returned exactly when none of the key words occurs |
| Traps.FuzzyIgnoresCase | 1.8.9/src/main/java/io/github/axolotlclient/modules/hypixel/bedwars/upgrades/TrapUpgrade.java:140-152 | upper-casing the name does not change the trap found |
| Traps.FuzzyPlain | 1.8.9/src/main/java/io/github/axolotlclient/modules/hypixel/bedwars/upgrades/TrapUpgrade.java:140-152 | one example: "Trap" contains no key word and names the plain trap |
| Base.RemoveFirstMultiset | 1.8.9/src/main/java/io/github/axolotlclient/modules/hypixel/bedwars/upgrades/TrapUpgrade.java:69-71 | as a bag, removing a trap from the queue (or an image from a gallery row) takes away exactly one copy of it when there is one |
| Base.RemoveFirstSplits | 1.8.9/src/main/java/io/github/axolotlclient/modules/hypixel/bedwars/upgrades/TrapUpgrade.java:69-71 | the first occurrence is the one removed, and the traps before and after it keep their order |
| Traps.OnMatch | 1.8.9/src/main/java/io/github/axolotlclient/modules/hypixel/bedwars/upgrades/TrapUpgrade.java:62-74 | a purchase queues the trap at the end, a trigger drops the front one and fails exactly on an empty queue, and a removal drops one occurrence of the named trap |
| Traps.PurchaseThenOff | 1.8.9/src/main/java/io/github/axolotlclient/modules/hypixel/bedwars/upgrades/TrapUpgrade.java:62-74 | buying a trap into an empty queue and then triggering leaves the queue empty |
| Traps.PurchaseThenRemove | 1.8.9/src/main/java/io/github/axolotlclient/modules/hypixel/bedwars/upgrades/TrapUpgrade.java:62-74 | buying a trap and then removing it by name gives back the queue |
| Traps.CanPurchase | 1.8.9/src/main/java/io/github/axolotlclient/modules/hypixel/bedwars/upgrades/TrapUpgrade.java:76-78 | another trap can be bought exactly when buying one, under any name, keeps the queue within 3 traps |
| Traps.GetPrice | 1.8.9/src/main/java/io/github/axolotlclient/modules/hypixel/bedwars/upgrades/TrapUpgrade.java:80-88 | while another trap can be bought the price is 2 to the number of queued traps, and it is 0 when the queue is full |
| Traps.PriceDoubles | 1.8.9/src/main/java/io/github/axolotlclient/modules/hypixel/bedwars/upgrades/TrapUpgrade.java:80-88 | each queued trap doubles the price of the next |
| Traps.IsPurchased | 1.8.9/src/main/java/io/github/axolotlclient/modules/hypixel/bedwars/upgrades/TrapUpgrade.java:90-93 | the upgrade counts as purchased exactly when a trap going off can be handled |
| Draw.FillRect | 1.8.9/src/main/java/io/github/axolotlclient/modules/hud/util/DrawUtil.java:48-50 | filling between two corners paints exactly the pixels of the half-open box between them |
| Draw.FillRectangle | 1.8.9/src/main/java/io/github/axolotlclient/modules/hud/util/DrawUtil.java:44-46 | filling a rectangle paints exactly the pixels inside it |
| Draw.OutlineRect | 1.8.9/src/main/java/io/github/axolotlclient/modules/hud/util/DrawUtil.java:60-65 | the outline is four one-pixel strips of the box's edges |
| Draw.OutlineIsBorder | 1.8.9/src/main/java/io/github/axolotlclient/modules/hud/util/DrawUtil.java:60-65 | for a box at least 2 by 2, the outline paints exactly the pixels on its border |
| Draw.FillRectColorAsWritten | 1.8.9/src/main/java/io/github/axolotlclient/modules/hud/util/DrawUtil.java:52-54 | the Color overload passes x + (x + width) as the right edge, as the code does |
| Draw.FillRectColorOverpaints | 1.8.9/src/main/java/io/github/axolotlclient/modules/hud/util/DrawUtil.java:52-54 | with x = 10 and width 5 the as-written call paints pixel 20, which lies outside the rectangle |
| Draw.FillRectColor | 1.8.9/src/main/java/io/github/axolotlclient/modules/hud/util/DrawUtil.java:52-54 | the corrected Color overload paints exactly the rectangle, like the int overload |
| Draw.StretchBlit | 1.8.9/src/main/java/io/github/axolotlclient/modules/hud/util/DrawUtil.java:167-179 | a stretched blit paints exactly its destination rectangle |
| Draw.Blit | 1.8.9/src/main/java/io/github/axolotlclient/modules/hud/util/DrawUtil.java:181-195 | an unstretched blit draws nothing exactly when a side of its area is zero |
| Draw.BlitPaints | 1.8.9/src/main/java/io/github/axolotlclient/modules/hud/util/DrawUtil.java:181-195 | an unstretched blit paints exactly its destination rectangle |
| Draw.TiledBlit | 1.8.9/src/main/java/io/github/axolotlclient/modules/hud/util/DrawUtil.java:350-363 | a tiled blit of an empty target draws nothing; otherwise it fails exactly when the sprite window has a side of at most zero |
| Draw.ColumnFits | 1.8.9/src/main/java/io/github/axolotlclient/modules/hud/util/DrawUtil.java:355-358 | every tile of a column is at most one texture tile large and lies inside the target |
| Draw.ColumnCovers | 1.8.9/src/main/java/io/github/axolotlclient/modules/hud/util/DrawUtil.java:355-358 | the tiles of a column cover exactly the column, each pixel once |
| Draw.ColumnsFit | 1.8.9/src/main/java/io/github/axolotlclient/modules/hud/util/DrawUtil.java:352-358 | every tile of every column lies inside the target |
| Draw.ColumnsCover | 1.8.9/src/main/java/io/github/axolotlclient/modules/hud/util/DrawUtil.java:352-358 | the columns cover exactly the target, each pixel once |
| Draw.TiledPartition | 1.8.9/src/main/java/io/github/axolotlclient/modules/hud/util/DrawUtil.java:350-363 | a tiled blit paints every pixel of the target exactly once and nothing outside it |
| Draw.SegmentPaints | 1.8.9/src/main/java/io/github/axolotlclient/modules/hud/util/DrawUtil.java:319-333 | the stretched or tiled inner segment paints exactly its rectangle |
| Draw.BordersFit | 1.8.9/src/main/java/io/github/axolotlclient/modules/hud/util/DrawUtil.java:200-204 | each non-negative border, clamped to half the target (truncated, on every side), is non-negative, and two opposite borders together fit in the target |
| Draw.NineSliced | 1.8.9/src/main/java/io/github/axolotlclient/modules/hud/util/DrawUtil.java:197-302 | a target of exactly the sprite's size is one blit of the whole sprite, and a sprite with a stretched middle never fails |
| Draw.EdgeBandPaints | 1.8.9/src/main/java/io/github/axolotlclient/modules/hud/util/DrawUtil.java:207-224 | a top or bottom band of three pieces paints exactly its strip |
| Draw.RowStackPaints | 1.8.9/src/main/java/io/github/axolotlclient/modules/hud/util/DrawUtil.java:225-242 | the stacked rows of the left or right edge paint exactly their column |
| Draw.MiddleBandPaints | 1.8.9/src/main/java/io/github/axolotlclient/modules/hud/util/DrawUtil.java:268-300 | the middle band paints exactly its strip |
| Draw.GridPaints | 1.8.9/src/main/java/io/github/axolotlclient/modules/hud/util/DrawUtil.java:243-300 | the grid of inner pieces paints exactly the inner rectangle |
| Draw.NineSlicePartition | 1.8.9/src/main/java/io/github/axolotlclient/modules/hud/util/DrawUtil.java:197-302 | a nine-sliced blit paints every pixel of the target exactly once and nothing outside it |
| Draw.NineSlicePoint | 1.8.9/src/main/java/io/github/axolotlclient/modules/hud/util/DrawUtil.java:197-302 | a pixel is painted by the nine-slice exactly when it lies in the target |
| Draw.BlitScaled | 1.8.9/src/main/java/io/github/axolotlclient/modules/hud/util/DrawUtil.java:141-149 | a stretched sprite always draws, and a tiled one tiles its whole texture over the target |
| Draw.ScaledPartition | 1.8.9/src/main/java/io/github/axolotlclient/modules/hud/util/DrawUtil.java:141-149 | a blit by texture kind paints exactly the target, whichever scaling applies |
| Gallery.ColumnCount | 1.21/src/main/java/io/github/axolotlclient/modules/screenshotUtils/GalleryScreen.java:143 | the column count is the largest number of entries whose row fits the list width |
| Gallery.Reposition | 1.21/src/main/java/io/github/axolotlclient/modules/screenshotUtils/GalleryScreen.java:350-356 | each entry of a row starts after the widths and spacings of the entries before it |
| Gallery.FullRowFits | 1.21/src/main/java/io/github/axolotlclient/modules/screenshotUtils/GalleryScreen.java:350-356 | a row of standard entries is evenly spaced and ends exactly at the row width |
| Gallery.LoadTab | 1.21/src/main/java/io/github/axolotlclient/modules/screenshotUtils/GalleryScreen.java:197-212 | loading a tab splits the images into full rows of the column count plus one shorter last row, keeping every image in order |
| Gallery.Chunk | 1.21/src/main/java/io/github/axolotlclient/modules/screenshotUtils/GalleryScreen.java:200-211 | there are as many rows as the column count needs, rounded up, and row k holds the images from k times the column count on, as many as fit, in order |
| Gallery.ChunkShape | 1.21/src/main/java/io/github/axolotlclient/modules/screenshotUtils/GalleryScreen.java:200-211 | chunking keeps the images in order and makes every row but the last full |
| Base.RemoveFirst | 1.21/src/main/java/io/github/axolotlclient/modules/screenshotUtils/GalleryScreen.java:341 | removing an entry drops one occurrence when present and nothing otherwise |
| Gallery.Remove | 1.21/src/main/java/io/github/axolotlclient/modules/screenshotUtils/GalleryScreen.java:340-348 | removing an entry and reflowing keeps every other entry in order, with no empty row |
| Gallery.RemoveStale | 1.21/src/main/java/io/github/axolotlclient/modules/screenshotUtils/GalleryScreen.java:340-348 | removing an entry that is not in its row changes nothing |
| Gallery.RemoveShape | 1.21/src/main/java/io/github/axolotlclient/modules/screenshotUtils/GalleryScreen.java:340-348 | after a removal every row but the last is full again |
| Gallery.Shift | 1.21/src/main/java/io/github/axolotlclient/modules/screenshotUtils/GalleryScreen.java:404-412 | pulling entries up from the rows below keeps every entry in order, with no empty row |
| Gallery.ShiftShape | 1.21/src/main/java/io/github/axolotlclient/modules/screenshotUtils/GalleryScreen.java:404-412 | after the pull-up every row but the last is full |
| Gallery.CascadeShape | 1.21/src/main/java/io/github/axolotlclient/modules/screenshotUtils/GalleryScreen.java:358-367 | the cascade from one row to the next refills each row |
| Gallery.CachedLoad | 1.21/src/main/java/io/github/axolotlclient/modules/screenshotUtils/GalleryScreen.java:70-80 | a cached image is returned without loading; a missing one is loaded and cached, or the error is passed on |
| Gallery.LoadAll | 1.21/src/main/java/io/github/axolotlclient/modules/screenshotUtils/GalleryScreen.java:70-80 | a sequence of look-ups that succeeds returns one image per key |
| Gallery.LoadAllFails | 1.21/src/main/java/io/github/axolotlclient/modules/screenshotUtils/GalleryScreen.java:70-80 | a sequence of look-ups fails exactly when some key is neither cached nor loadable |
| Gallery.LoaderRunsOnce | 1.21/src/main/java/io/github/axolotlclient/modules/screenshotUtils/GalleryScreen.java:70-80 | over a sequence of look-ups each image is loaded at most once |
| Gallery.LoadAllConsistent | 1.21/src/main/java/io/github/axolotlclient/modules/screenshotUtils/GalleryScreen.java:70-80 | every look-up returns what the final cache holds for its key |
| Keystrokes.MouseKeyBindName | 1.21/src/main/java/io/github/axolotlclient/modules/hud/gui/hud/KeystrokeHud.java:90-102 | a mouse-button binding gets its button's short name, and other bindings get none |
| Keystrokes.DerivedLabel | 1.21/src/main/java/io/github/axolotlclient/modules/hud/gui/hud/KeystrokeHud.java:137-140 | the label is the mouse name, or the upper-cased key name cut to two letters when longer than four, and is never longer than four |
| Keystrokes.CreateFromKey | 1.21/src/main/java/io/github/axolotlclient/modules/hud/gui/hud/KeystrokeHud.java:136-146 | a keystroke made from a key is a synchronised label showing the key's derived label |
| Keystrokes.NewStroke | 1.21/src/main/java/io/github/axolotlclient/modules/hud/gui/hud/KeystrokeHud.java:379-381 | a new keystroke is an unbound, unsynchronised, empty 17 by 17 label |
| Keystrokes.SetSynchronizeLabel | 1.21/src/main/java/io/github/axolotlclient/modules/hud/gui/hud/KeystrokeHud.java:419-428 | turning synchronisation on takes the key's label, fails without a key, and turning it off keeps the text |
| Keystrokes.SetKey | 1.21/src/main/java/io/github/axolotlclient/modules/hud/gui/hud/KeystrokeHud.java:430-440 | changing the key of a synchronised label relabels it, fails when unbinding, and only rebinds otherwise |
| Keystrokes.SetLabel | 1.21/src/main/java/io/github/axolotlclient/modules/hud/gui/hud/KeystrokeHud.java:364-367 | setting the text changes only a label keystroke's text |
| Keystrokes.SyncFollowsKey | 1.21/src/main/java/io/github/axolotlclient/modules/hud/gui/hud/KeystrokeHud.java:419-440 | after synchronising, rebinding the key shows the new key's label |
| Keystrokes.ManualLabelSticks | 1.21/src/main/java/io/github/axolotlclient/modules/hud/gui/hud/KeystrokeHud.java:419-440 | a typed label survives a rebind once synchronisation is off |
| Keystrokes.SetX | 1.21/src/main/java/io/github/axolotlclient/modules/hud/gui/hud/KeystrokeHud.java:242-244 | moving a keystroke horizontally puts its left edge, plus the HUD offset, at the given x and changes nothing else |
| Keystrokes.SetY | 1.21/src/main/java/io/github/axolotlclient/modules/hud/gui/hud/KeystrokeHud.java:246-248 | moving a keystroke vertically puts its top edge, plus the HUD offset, at the given y and changes nothing else |
| Keystrokes.RenderPosition | 1.21/src/main/java/io/github/axolotlclient/modules/hud/gui/hud/KeystrokeHud.java:250-252 | the drawn rectangle keeps the keystroke's size, and moving the keystroke to where it is drawn changes nothing |
| Keystrokes.MovedStrokeRendersThere | 1.21/src/main/java/io/github/axolotlclient/modules/hud/gui/hud/KeystrokeHud.java:242-252 | a keystroke moved to a screen position renders at that position |
| Keystrokes.DefaultRectsFit | 1.21/src/main/java/io/github/axolotlclient/modules/hud/gui/hud/KeystrokeHud.java:104-121 | the default layout's keys are pairwise disjoint and lie inside the HUD's 53 by 61 box |
| Keystrokes.Serialize | 1.21/src/main/java/io/github/axolotlclient/modules/hud/gui/hud/KeystrokeHud.java:300-305 | a keystroke without a key cannot be written; otherwise the JSON holds its bounds and its type, "custom" for a label and "option" for a special key |
| Keystrokes.Deserialize | 1.21/src/main/java/io/github/axolotlclient/modules/hud/gui/hud/KeystrokeHud.java:315-328 | a special key is read only from an "option" object without a label, and an "option" object with a label reads as a synchronised label |
| Keystrokes.BoundsRoundTrip | 1.21/src/main/java/io/github/axolotlclient/modules/hud/gui/hud/KeystrokeHud.java:331-333 | bounds written as JSON read back as the same rectangle |
| Keystrokes.SerializeRoundTrip | 1.21/src/main/java/io/github/axolotlclient/modules/hud/gui/hud/KeystrokeHud.java:315-328 | any keystroke with a registered key and 32-bit bounds reads back as itself |
| Keystrokes.UnknownKeyComesBackUnbound | 1.21/src/main/java/io/github/axolotlclient/modules/hud/gui/hud/KeystrokeHud.java:326-327 | a keystroke whose key is no longer registered reads back unbound |
| Api.ValidateUuid | common/src/main/java/io/github/axolotlclient/api/API.java:345-351 | an undashed UUID is accepted unchanged exactly when it has 32 characters, and is an error otherwise |
| Api.SanitizeUuid | common/src/main/java/io/github/axolotlclient/api/API.java:338-344 | sanitising succeeds exactly when the text without dashes has 32 characters, and gives that text |
| Api.SanitizeIdempotent | common/src/main/java/io/github/axolotlclient/api/API.java:338-351 | sanitising a sanitised UUID changes nothing |
| Api.DashesDoNotMatter | common/src/main/java/io/github/axolotlclient/api/API.java:338-344 | a dashed UUID and its undashed form sanitise to the same string |
| Api.PathPart | common/src/main/java/io/github/axolotlclient/api/API.java:189-194 | the path starts with the base URL followed by the route |
| Api.GetUrlAsWritten | common/src/main/java/io/github/axolotlclient/api/API.java:189-205 | the query string is built as the code builds it, with the ampersand before each entry |
| Api.GetUrlAsWrittenGluesEntries | common/src/main/java/io/github/axolotlclient/api/API.java:197-202 | as written, the query starts with "?&" and later entries are glued together without a separator |
| Api.GetUrlAsWrittenDiffers | common/src/main/java/io/github/axolotlclient/api/API.java:197-202 | for two entries the as-written URL is not the intended one |
| Api.GetUrl | common/src/main/java/io/github/axolotlclient/api/API.java:189-205 | the corrected URL has no query without parameters, and otherwise joins the key=value entries with '&' after one '?' |
| Api.JoinSplits | common/src/main/java/io/github/axolotlclient/api/API.java:195-202 | splitting the corrected query at '&' gives back the key=value entries |
| FpsLimiter.FpsOverride | 1.8.9/src/main/java/io/github/axolotlclient/modules/unfocusedFpsLimiter/UnfocusedFpsLimiter.java:164-170 | a hidden window gets 0 frames; a hovered one, if configured, no limit; an unfocused one the configured rate; and otherwise no limit |
| FpsLimiter.StateChanges | 1.8.9/src/main/java/io/github/axolotlclient/modules/unfocusedFpsLimiter/UnfocusedFpsLimiter.java:94-162 | focus and visibility changes request garbage collection only on losing focus with the option on, and set the volume on the transitions the code names: 1 on focus, the hidden volume on disappearing, the unfocused volume on losing focus while visible, and on appearing while unfocused (`onAppear`, lines 154-158), also when focus is lost in the same frame; a zero volume is skipped when the game will pause anyway, so the volume never drops to zero then |
| FpsLimiter.SetVolume | 1.8.9/src/main/java/io/github/axolotlclient/modules/unfocusedFpsLimiter/UnfocusedFpsLimiter.java:179-190 | the volume becomes the requested multiplier unless that is zero while the game will pause, in which case it stays |
| FpsLimiter.VolumeStaysInRange | 1.8.9/src/main/java/io/github/axolotlclient/modules/unfocusedFpsLimiter/UnfocusedFpsLimiter.java:140-162 | with configured volumes in [0, 1], the volume multiplier stays in [0, 1] |
| FpsLimiter.Throttle | 1.8.9/src/main/java/io/github/axolotlclient/modules/unfocusedFpsLimiter/UnfocusedFpsLimiter.java:114-138 | with a limit, the first frame renders, a 0 limit idles for a second, and otherwise a frame renders once the frame time has passed |
| FpsLimiter.CheckForRender | 1.8.9/src/main/java/io/github/axolotlclient/modules/unfocusedFpsLimiter/UnfocusedFpsLimiter.java:73-92 | a disabled limiter always renders; otherwise rendering follows the override and remembers when it last rendered |
| FpsLimiter.RateIsRespected | 1.8.9/src/main/java/io/github/axolotlclient/modules/unfocusedFpsLimiter/UnfocusedFpsLimiter.java:127-137 | under a steady limit, rendered frames are at least 1000 / fps milliseconds apart |
| FpsLimiter.HiddenStopsRendering | 1.8.9/src/main/java/io/github/axolotlclient/modules/unfocusedFpsLimiter/UnfocusedFpsLimiter.java:114-130 | while the window stays hidden after a rendered frame, nothing renders |
| ToggleSprint.Tick | 1.21.4/src/main/java/io/github/axolotlclient/modules/hud/gui/hud/simple/ToggleSprintHud.java:85-98 | a key's toggle flips exactly when it is pressed after being released and its toggle is enabled; the pressed flag follows the key while enabled or already set; the enabled flags never change |
| ToggleSprint.Edge | 1.21.4/src/main/java/io/github/axolotlclient/modules/hud/gui/hud/simple/ToggleSprintHud.java:86-91 | a toggle flips only on a press after a release, and the pressed flag follows the key |
| ToggleSprint.HoldingTogglesOnce | 1.21.4/src/main/java/io/github/axolotlclient/modules/hud/gui/hud/simple/ToggleSprintHud.java:86-88 | holding the key for any number of ticks toggles exactly once |
| ToggleSprint.HeldStays | 1.21.4/src/main/java/io/github/axolotlclient/modules/hud/gui/hud/simple/ToggleSprintHud.java:86-88 | a key already held does not toggle again |
| ToggleSprint.PressReleaseTogglesOnce | 1.21.4/src/main/java/io/github/axolotlclient/modules/hud/gui/hud/simple/ToggleSprintHud.java:86-91 | a press followed by a release toggles once and re-arms the key |
| ToggleSprint.Released | 1.21.4/src/main/java/io/github/axolotlclient/modules/hud/gui/hud/simple/ToggleSprintHud.java:89-91 | released ticks never toggle and leave the key armed |
| ToggleSprint.HoldConcat | 1.21.4/src/main/java/io/github/axolotlclient/modules/hud/gui/hud/simple/ToggleSprintHud.java:85-98 | a run of ticks is the same as its two halves one after the other |
| ToggleSprint.Value | 1.21.4/src/main/java/io/github/axolotlclient/modules/hud/gui/hud/simple/ToggleSprintHud.java:111-126 | a held sneak key shows first, then a held sprint key, then a toggled sneak, then a toggled sprint |
| ToggleSprint.SprintPressShows | 1.21.4/src/main/java/io/github/axolotlclient/modules/hud/gui/hud/simple/ToggleSprintHud.java:86-123 | pressing the sprint key once from idle makes the HUD show the toggled-sprint text |
| ScrollArea.ScrollbarVisible | 1.21/src/main/java/io/github/axolotlclient/api/NewsScreen.java:286-288 | the scroll bar shows exactly when the text plus the 4-pixel inner padding above and below it (`contentHeight`, NewsScreen.java:182-184) is taller than the area |
| ScrollArea.MaxScroll | 1.21/src/main/java/io/github/axolotlclient/api/NewsScreen.java:282-284 | the maximum scroll is 0 exactly when the text plus the 4-pixel inner padding above and below it (`contentHeight`, NewsScreen.java:182-184) fits the area; otherwise, scrolled that far, the text's bottom lies one padding above the area's bottom |
| ScrollArea.SetAmount | 1.21/src/main/java/io/github/axolotlclient/api/NewsScreen.java:264-266 | setting the amount clamps it into [0, max] and changes nothing else |
| ScrollArea.Refresh | 1.21/src/main/java/io/github/axolotlclient/api/NewsScreen.java:278-280 | refreshing brings the amount back in range and leaves an in-range area alone |
| ScrollArea.MouseScrolled | 1.21/src/main/java/io/github/axolotlclient/api/NewsScreen.java:225-233 | a wheel turn over a visible area moves the amount by the turn times the rate, clamped |
| ScrollArea.KeyPressed | 1.21/src/main/java/io/github/axolotlclient/api/NewsScreen.java:125-138 | the arrow keys move by the rate, clamped; the key counts as handled when the amount changed or the fallback handled it |
| ScrollArea.ArrowsStopAtTheEnds | 1.21/src/main/java/io/github/axolotlclient/api/NewsScreen.java:125-138 | up at the top and down at the bottom change nothing |
| ScrollArea.UpThenDown | 1.21/src/main/java/io/github/axolotlclient/api/NewsScreen.java:125-138 | up then down returns to the same place, away from the top |
| ScrollArea.ScrollerHeight | 1.21/src/main/java/io/github/axolotlclient/api/NewsScreen.java:290-292 | the knob is at least 32 pixels tall when the track allows and never taller than the track |
| ScrollArea.MouseDragged | 1.21/src/main/java/io/github/axolotlclient/api/NewsScreen.java:235-253 | dragging sets the amount in range, to the top above the area and to the bottom below it |
| ScrollArea.UpdateScrolling | 1.21/src/main/java/io/github/axolotlclient/api/NewsScreen.java:268-276 | dragging starts only with a visible scroll bar and a valid button |
| ScrollArea.InputKeepsRange | 1.21/src/main/java/io/github/axolotlclient/api/NewsScreen.java:225-266 | every input keeps the amount in [0, max] |
| ScrollArea.KnobInTrack | 1.21/src/main/java/io/github/axolotlclient/api/NewsScreen.java:298-300 | the scroll bar knob lies inside the area |
| ScrollArea.ScrollBarY | 1.21/src/main/java/io/github/axolotlclient/api/NewsScreen.java:298-300 | the knob never starts above the area, and at the top of an overflowing text it starts at the top |
| Chat.TextLines | 1.8.9/src/main/java/io/github/axolotlclient/api/chat/ChatWidget.java:116 | each wrapped line of a message becomes one row, in order |
| Chat.Cap | 1.8.9/src/main/java/io/github/axolotlclient/api/chat/ChatWidget.java:143 | the scroll amount is kept in [0, max] and left alone inside it |
| Chat.HistoryBefore | 1.8.9/src/main/java/io/github/axolotlclient/api/chat/ChatWidget.java:127-135 | history is requested from before the oldest message, or from now when there is none |
| Chat.Scroll | 1.8.9/src/main/java/io/github/axolotlclient/api/chat/ChatWidget.java:137-145 | scrolling above the top requests older history; the amount is capped and nothing else changes |
| Chat.ScrollAboveTopLoadsHistory | 1.8.9/src/main/java/io/github/axolotlclient/api/chat/ChatWidget.java:137-145 | scrolling up from the top asks for history from before the oldest message |
| Chat.AddMessage | 1.8.9/src/main/java/io/github/axolotlclient/api/chat/ChatWidget.java:98-125 | adding a message keeps rows and messages ordered by time, adds exactly its rows, and keeps the view at the bottom if it was there |
| Chat.HeaderCount | 1.8.9/src/main/java/io/github/axolotlclient/api/chat/ChatWidget.java:103-116 | a message adds one row per wrapped line, plus one name header when it needs one |
| Chat.NewSenderGetsHeader | 1.8.9/src/main/java/io/github/axolotlclient/api/chat/ChatWidget.java:104-107 | a message from a new sender gets a name header |
| Chat.SameSenderLaterNoHeader | 1.8.9/src/main/java/io/github/axolotlclient/api/chat/ChatWidget.java:108-110 | a message from the same sender within the grouping gap gets no header |
| Chat.AddIsStable | 1.8.9/src/main/java/io/github/axolotlclient/api/chat/ChatWidget.java:119-124 | rows of equal time keep their insertion order after sorting |
| Chat.LatestAppends | 1.8.9/src/main/java/io/github/axolotlclient/api/chat/ChatWidget.java:116-124 | a message no older than any stored one is appended at the end |
| Sorting.SortIsOrderedPermutation | 1.8.9/src/main/java/io/github/axolotlclient/api/chat/ChatWidget.java:119 | sorting by a key gives an ordered permutation of the input |
| Sorting.SortIsStable | 1.8.9/src/main/java/io/github/axolotlclient/api/chat/ChatWidget.java:119 | elements of equal key keep their relative order |
| Sorting.SortOfSorted | 1.8.9/src/main/java/io/github/axolotlclient/api/chat/ChatWidget.java:119 | an already ordered sequence is left as it is |
| Scoreboard.SortRankCorrect | 1.21/src/main/java/io/github/axolotlclient/modules/hud/gui/hud/vanilla/ScoreboardHud.java:135-137 | scores are sorted into an ordered permutation: higher first, ties by name ignoring case |
| Scoreboard.RankLeTotal | 1.21/src/main/java/io/github/axolotlclient/modules/hud/gui/hud/vanilla/ScoreboardHud.java:135-137 | any two scores are comparable in the sidebar order |
| Scoreboard.RankLeTrans | 1.21/src/main/java/io/github/axolotlclient/modules/hud/gui/hud/vanilla/ScoreboardHud.java:135-137 | the sidebar order is transitive |
| Scoreboard.VisibleKeeps | 1.21/src/main/java/io/github/axolotlclient/modules/hud/gui/hud/vanilla/ScoreboardHud.java:134 | exactly the scores that are not hidden are kept, each as often as it occurs |
| Scoreboard.Select | 1.21/src/main/java/io/github/axolotlclient/modules/hud/gui/hud/vanilla/ScoreboardHud.java:132-147 | the rows are as many visible scores as fit, at most 15, in sidebar order |
| Scoreboard.SelectIsTopScores | 1.21/src/main/java/io/github/axolotlclient/modules/hud/gui/hud/vanilla/ScoreboardHud.java:132-147 | the rows are at most 15 visible scores in sidebar order, and no visible score left out ranks above one shown |
| Scoreboard.MaxWidth | 1.21/src/main/java/io/github/axolotlclient/modules/hud/gui/hud/vanilla/ScoreboardHud.java:150-157 | the width is the widest of the title and the rows, plus 3 |
| Scoreboard.BoxHeight | 1.21/src/main/java/io/github/axolotlclient/modules/hud/gui/hud/vanilla/ScoreboardHud.java:158-165 | the box fits the rows, the title and the padding on both sides of it, with the title starting two pixels below the top padding |
| Scoreboard.Resize | 1.21/src/main/java/io/github/axolotlclient/modules/hud/gui/hud/vanilla/ScoreboardHud.java:163-174 | the size becomes the new one, and a bounds update is reported exactly when it changed |
| Scoreboard.ResizeSettles | 1.21/src/main/java/io/github/axolotlclient/modules/hud/gui/hud/vanilla/ScoreboardHud.java:163-174 | resizing again to the size just set keeps it and reports no further bounds update |
| Scoreboard.ResizedLayoutFits | 1.21/src/main/java/io/github/axolotlclient/modules/hud/gui/hud/vanilla/ScoreboardHud.java:158-191 | once the HUD has resized to the box height for its rows and padding, the title and every row lie inside the new bounds, with the last row ending at the bottom |
| Scoreboard.RowY | 1.21/src/main/java/io/github/axolotlclient/modules/hud/gui/hud/vanilla/ScoreboardHud.java:188-190 | each row lies between the title's end and the bottom, a line height per row down from the title's end |
| Scoreboard.TitleY | 1.21/src/main/java/io/github/axolotlclient/modules/hud/gui/hud/vanilla/ScoreboardHud.java:181-186 | the title line ends exactly the top padding above the first row |
| Scoreboard.TitleX | 1.21/src/main/java/io/github/axolotlclient/modules/hud/gui/hud/vanilla/ScoreboardHud.java:186 | a title no wider than the column lies within it, and its left and right margins differ by at most one pixel |
| Scoreboard.LayoutFits | 1.21/src/main/java/io/github/axolotlclient/modules/hud/gui/hud/vanilla/ScoreboardHud.java:178-191 | in a box of the computed height the title and rows lie inside, a line apart, with the last row ending at the bottom |
| Scoreboard.TitleCentred | 1.21/src/main/java/io/github/axolotlclient/modules/hud/gui/hud/vanilla/ScoreboardHud.java:186 | the centred title lies within the text column |
| Skybox.Alpha | 1.8.9/src/main/java/io/github/axolotlclient/modules/sky/SkyboxInstance.java:81-139 | the alpha is in [0, 1], is 1 for an always-on sky, and is the fade phase times the maximum alpha when that lies in range |
| Skybox.Unwrap | 1.8.9/src/main/java/io/github/axolotlclient/modules/sky/SkyboxInstance.java:90-106 | each fade time is taken on the clock, as a Java remainder by 24000, and moved a day later when it falls before the previous one |
| Skybox.UnwrapOrdered | 1.8.9/src/main/java/io/github/axolotlclient/modules/sky/SkyboxInstance.java:90-106 | the unwrapped fade times are in order and their gaps are the ticks between the configured times |
| Skybox.EmptyWhenZero | 1.8.9/src/main/java/io/github/axolotlclient/modules/sky/SkyboxInstance.java:87-88 | a fade of zero length has an empty window |
| Skybox.PhaseIsFraction | 1.8.9/src/main/java/io/github/axolotlclient/modules/sky/SkyboxInstance.java:128-136 | the phase is in [0, 1], rises linearly through the fade-in and falls linearly through the fade-out |
| Skybox.FullAndHidden | 1.8.9/src/main/java/io/github/axolotlclient/modules/sky/SkyboxInstance.java:128-136 | between the fades the sky is fully shown, and outside every window it is hidden |
| Skybox.Phase | 1.8.9/src/main/java/io/github/axolotlclient/modules/sky/SkyboxInstance.java:86-136 | for fade times on the clock the fade phase lies in [0, 1] |
| Skybox.ParseBlend | 1.8.9/src/main/java/io/github/axolotlclient/modules/sky/SkyboxInstance.java:141-169 | a blend name is matched trimmed and lower-cased; a missing or unknown name gives the default blend |
| Skybox.BlendNamesRoundTrip | 1.8.9/src/main/java/io/github/axolotlclient/modules/sky/SkyboxInstance.java:145-163 | every blend name parses back to its own blend |
| FeatureDisabler.RulesDistinct | 1.21/src/main/java/io/github/axolotlclient/util/FeatureDisabler.java:67-71 | each registered rule bans a different option |
| FeatureDisabler.FirstMatch | 1.21/src/main/java/io/github/axolotlclient/util/FeatureDisabler.java:117-122 | the match found is the first server name contained in the address ignoring case, and none means no name matches |
| FeatureDisabler.DisableOption | 1.21/src/main/java/io/github/axolotlclient/util/FeatureDisabler.java:115-127 | an option is forced off exactly when a server name matches and its condition holds, and it is set only when that changes |
| FeatureDisabler.Update | 1.21/src/main/java/io/github/axolotlclient/util/FeatureDisabler.java:111-113 | after an update every ruled option is forced off exactly when banned, and other options are untouched |
| FeatureDisabler.UpdateIdempotent | 1.21/src/main/java/io/github/axolotlclient/util/FeatureDisabler.java:111-127 | a second update changes nothing and sets nothing |
| FeatureDisabler.UpdateOrderFree | 1.21/src/main/java/io/github/axolotlclient/util/FeatureDisabler.java:111-113 | the order the rules are visited in does not change the result |
| FeatureDisabler.CaseDoesNotMatter | 1.21/src/main/java/io/github/axolotlclient/util/FeatureDisabler.java:118 | the letter case of the address does not change a ban |
| FeatureDisabler.OnServerJoin | 1.21/src/main/java/io/github/axolotlclient/util/FeatureDisabler.java:101-104 | joining remembers the address and bans exactly the options the rules ban there |
| FeatureDisabler.Clear | 1.21/src/main/java/io/github/axolotlclient/util/FeatureDisabler.java:106-109 | leaving a server lifts every ban |
| FeatureDisabler.Named | 1.21/src/main/java/io/github/axolotlclient/util/FeatureDisabler.java:57-64 | a name stands for a feature exactly when it is one of the four known names |
| FeatureDisabler.ReceiveFeatures | 1.21/src/main/java/io/github/axolotlclient/util/FeatureDisabler.java:82-90 | a server's list forces off exactly the named features, on top of the current bans |
| FeatureDisabler.NamedFeatureForced | 1.21/src/main/java/io/github/axolotlclient/util/FeatureDisabler.java:82-90 | naming one feature forces exactly that feature off |
| Zoom.SetDivisor | 1.8.9/src/main/java/io/github/axolotlclient/modules/zoom/Zoom.java:108-111 | the target factor becomes the inverse of the divisor |
| Zoom.UpdateSensitivity | 1.8.9/src/main/java/io/github/axolotlclient/modules/zoom/Zoom.java:129-133 | when enabled, the sensitivity is the saved one divided by the divisor |
| Zoom.SetOptions | 1.8.9/src/main/java/io/github/axolotlclient/modules/zoom/Zoom.java:113-122 | zooming saves the sensitivity and, when configured, the smooth camera before turning it on |
| Zoom.Start | 1.8.9/src/main/java/io/github/axolotlclient/modules/zoom/Zoom.java:88-92 | starting activates the zoom at the configured divisor and saves the sensitivity |
| Zoom.StopAsWritten | 1.8.9/src/main/java/io/github/axolotlclient/modules/zoom/Zoom.java:98-102 | as written, stopping switches the zoom off, sets the target back to 1 and restores the saved sensitivity and smooth camera unconditionally |
| Zoom.UpdateAsWritten | 1.8.9/src/main/java/io/github/axolotlclient/modules/zoom/Zoom.java:76-82 | the key handling as written starts and stops the zoom with the unconditional restore |
| Zoom.ZoomTurnsOffSmoothCamera | 1.8.9/src/main/java/io/github/axolotlclient/modules/zoom/Zoom.java:113-127 | as written, a zoom with the smooth-camera option off turns the game's smooth camera off when it ends |
| Zoom.RestoreOptions | 1.8.9/src/main/java/io/github/axolotlclient/modules/zoom/Zoom.java:124-127 | the corrected restore puts the smooth camera back only when it was saved |
| Zoom.Stop | 1.8.9/src/main/java/io/github/axolotlclient/modules/zoom/Zoom.java:98-102 | the corrected stop switches the zoom off, sets the target back to 1, restores the sensitivity, puts the smooth camera back only if it was saved, and forgets it |
| Zoom.Update | 1.8.9/src/main/java/io/github/axolotlclient/modules/zoom/Zoom.java:76-82 | the key starts the zoom on press and stops it on release, and does nothing otherwise |
| Zoom.ZoomRestoresOptions | 1.8.9/src/main/java/io/github/axolotlclient/modules/zoom/Zoom.java:76-127 | with the corrected restore, zooming in, scrolling and releasing gives back the options exactly |
| Zoom.Scroll | 1.8.9/src/main/java/io/github/axolotlclient/modules/zoom/Zoom.java:135-143 | scrolling while zoomed moves the divisor by one, never below 1, and rescales the sensitivity |
| Zoom.ScrollInOut | 1.8.9/src/main/java/io/github/axolotlclient/modules/zoom/Zoom.java:135-143 | scrolling in and back out restores the divisor |
| Zoom.ScrollAllKeepsSaved | 1.8.9/src/main/java/io/github/axolotlclient/modules/zoom/Zoom.java:135-143 | scrolling never changes the saved options or whether the zoom is active |
| Zoom.Tick | 1.8.9/src/main/java/io/github/axolotlclient/modules/zoom/Zoom.java:168-178 | each tick moves the animated factor toward the target by the configured speed |
| Zoom.TickApproachesTarget | 1.8.9/src/main/java/io/github/axolotlclient/modules/zoom/Zoom.java:169-171 | a tick never overshoots the target, and the top speed reaches it at once |
| Zoom.GetFov | 1.8.9/src/main/java/io/github/axolotlclient/modules/zoom/Zoom.java:65-74 | the field of view is the current one times the target or the interpolated factor, and a change is reported against the last one returned |
| Zoom.SettledFovUnchanged | 1.8.9/src/main/java/io/github/axolotlclient/modules/zoom/Zoom.java:65-74 | with no zoom and the animation settled, the field of view is unchanged |
| HudEntry.IntToFloat | 1.21.4/src/main/java/io/github/axolotlclient/modules/hud/gui/AbstractHudEntry.java:82-84 | a pixel position is stored as its share of the span, clamped to [0, 1], and NaN only for 0 of an empty span |
| HudEntry.FloatToInt | 1.21.4/src/main/java/io/github/axolotlclient/modules/hud/gui/AbstractHudEntry.java:86-88 | a share becomes the nearest pixel clamped to the screen, with NaN giving 0 |
| HudEntry.SetX | 1.21.4/src/main/java/io/github/axolotlclient/modules/hud/gui/AbstractHudEntry.java:109-111 | moving horizontally stores a share in [0, 1] and changes nothing else |
| HudEntry.SetY | 1.21.4/src/main/java/io/github/axolotlclient/modules/hud/gui/AbstractHudEntry.java:131-133 | moving vertically stores a share in [0, 1] and changes nothing else |
| HudEntry.Place | 1.21.4/src/main/java/io/github/axolotlclient/modules/hud/gui/AbstractHudEntry.java:152-169 | an element is kept off the negative side and, when smaller than the screen, pulled back so its far edge stays on it |
| HudEntry.TrueSize | 1.21.4/src/main/java/io/github/axolotlclient/modules/hud/gui/AbstractHudEntry.java:160-173 | the scaled size is the size times the scale, truncated |
| HudEntry.SetBounds | 1.21.4/src/main/java/io/github/axolotlclient/modules/hud/gui/AbstractHudEntry.java:144-174 | without a window the layout resets; otherwise the element is placed on screen and its bounds follow its position and size |
| HudEntry.PixelRoundTrip | 1.21.4/src/main/java/io/github/axolotlclient/modules/hud/gui/AbstractHudEntry.java:82-88 | a pixel position on the screen survives being stored as a share |
| HudEntry.ShareRoundTrip | 1.21.4/src/main/java/io/github/axolotlclient/modules/hud/gui/AbstractHudEntry.java:82-88 | a share turned into pixels and back moves by at most half a pixel |
| HudEntry.MovedElementLandsThere | 1.21.4/src/main/java/io/github/axolotlclient/modules/hud/gui/AbstractHudEntry.java:109-174 | an element moved to a spot where it fits is laid out exactly there |

## Left out

- Rendering, textures, text drawing, sounds, key polling and the network are left out. The model takes their results as inputs, for example text widths, wrapped lines and whether a key is down.
- Floating point is modelled as exact real arithmetic, so rounding errors are not modelled. `float` and `double` casts to `int` are modelled as truncation. HudEntry keeps NaN because the code reaches it.
- Java `int` overflow is not modelled, except where the keystroke JSON reads integers.
- Case mapping and whitespace are ASCII only, because the model has no Unicode tables. This affects `toLowerCase`, `toUpperCase`, `Character.toTitleCase`, `Character.isUpperCase` (the capital-letter split in `Util.splitAtCapitalLetters`), `Character.isWhitespace` and `String.CASE_INSENSITIVE_ORDER`.
- Coords.Direction: a NaN yaw, for which the code returns 0, is not modelled.
- Skybox.PhaseIsFraction: holds only for fade times already on the day's clock (0 to 23999). Times outside that range use Java's remainder, which can be negative.
- FeatureDisabler.Update: the rules are visited in list order, where the code walks a hash map. UpdateOrderFree shows the order does not matter. Freelook's own condition is a parameter.
- Toasts.Update: the animation clock is replaced by the set of toasts whose animation has finished. Rendering toasts and looking one up are not modelled.
- ItemUtil.RemoveOld: the clock is a parameter. The timed variants of the item look-up are not modelled separately, because they only add a timestamp.
- Gallery.Remove: entries are identified by their row and value, not by object identity. Image decoding is the loader parameter.
- Keystrokes.Deserialize: the JSON library is not modelled. A missing string field reads as null, and a missing or mistyped number or boolean is an error, as the code's accessors behave. Key lookup is over a given map of registered bindings.
- FpsLimiter.CheckForRender: the idle request and garbage collection are outputs, not actions.
- ScrollArea.KeyPressed: the screen's own handling of other keys is the `fallback` parameter.
- Chat.Scroll: the maximum scroll is a parameter. The history request is returned, not sent.
- Chat.AddMessage: the header rule is modelled as written. It compares the new message with the last stored message, which after a history load may be newer.
- Scoreboard.SelectIsTopScores: ties are ordered by the ASCII-lower-cased owner name.
- HudEntry.SetBounds: the element's offsets and the division of a position by the scale come from the HUD-entry interface and are parameters. That interface is not part of this model.

## Findings

| source | as written | input that shows it | evidently intended | confidence | as-written member | corrected member |
|---|---|---|---|---|---|---|
| 1.8.9/src/main/java/io/github/axolotlclient/modules/hud/util/DrawUtil.java:52-54 | the Color overload of `fillRect` passes `x + width` and `y + height` to a method that adds `x` and `y` again | x = 10, width = 5: pixel 20 is painted, outside the 5-pixel rectangle | paint the rectangle from x to x + width, like the int overload | high, not executed | Draw.FillRectColorAsWritten (Draw.FillRectColorOverpaints) | Draw.FillRectColor |
| common/src/main/java/io/github/axolotlclient/api/API.java:197-202 | the query string starts with "?&" and later entries get no separator | query {a=1, b=2}: "…?&a=1b=2" | "…?a=1&b=2" | high, not executed | Api.GetUrlAsWritten (Api.GetUrlAsWrittenGluesEntries, Api.GetUrlAsWrittenDiffers) | Api.GetUrl (Api.JoinSplits) |
| 1.8.9/src/main/java/io/github/axolotlclient/modules/zoom/Zoom.java:124-127 | ending a zoom always restores the saved smooth-camera flag, which is saved only when the smooth-camera option is on | smooth-camera option off, the game's smooth camera on: zoom in and out, and the smooth camera ends up off | restore the smooth camera only if it was saved | medium, not executed | Zoom.UpdateAsWritten (Zoom.ZoomTurnsOffSmoothCamera) | Zoom.Update (Zoom.ZoomRestoresOptions) |
