# PhotographyScripts: panorama grouping and photo tagging, modelled in Dafny

This project models the two pieces of sequential logic in the PhotographyScripts
repository and proves properties of them.

- **GroupImages.py** walks a list of photographs in order and gives each one a
  group id. Photographs that overlap geometrically, and so could be stitched
  into one panorama, share an id. A `PanormaGroup` object keeps the current
  group id and the feature sets retained for the open group. For each new
  image it searches the retained list newest first. The first retained image
  with more than 100 RANSAC inliers keeps the new image in the group. When no
  retained image matches, the list is emptied and the id goes up by one. The
  new image's feature set is then retained. `main` prints
  `"<image>  <group id>"` for every line of the image list.
- **CatagarisePhotos.py** asks the user for a line of tags for each photo. A
  token that `int()` accepts is a serial number into the registry of tags
  entered so far. Lookup uses Python list indexing, so negative numbers count
  from the end, and an out-of-range number is dropped. Any other token is a
  tag. It is added to the photo's tag list, and to the registry unless it is
  already there. A menu lists the registry as `i:tag  | ` entries. The output
  line is the photo name followed by its tags.

Files:

- `wrappers.dfy`: module `Wrappers`, the `Option` type. `None` marks a
  Python exception: `IOError` from the image loader, or `IndexError` from a
  list lookup.
- `pytext.dfy`: module `PyText`, the Python 2 `str` behaviour both scripts
  use: `isspace`, `rstrip()`, `split()`, `' '.join`, `int()` on a token, and
  integer formatting.
- `group_images.dfy`: module `GroupImages`, holding the class `PanoramaGroup`
  and the `main` loop. The class keeps `GroupChecker`'s fields (`name`,
  `currentGroupId`) and `PanormaGroup`'s retained list
  (`imagesKeypointsDescriptors`). The specification functions are
  `LatestMatch`, `Probes`, `Assign` and `Run`.
- `catagarise_photos.dfy`: module `CatagarisePhotos`, holding the class
  `TagRegistry` (the script's `HashTagsList`) and the specification functions
  `PyIndex`, `ResolveToken`, `ResolveAll` and `MenuText`.

Three parts of the source become parameters, because they are library code
or randomised:

- Feature detection (ORB), descriptor matching and RANSAC become one oracle,
  `inliers(prev, new): nat`. The arguments are in the source's order: the
  retained image first, the new image second.
- Loading an image and extracting its features become `extract(reference)`.
  It yields `None` where `LoadImage` raises `IOError`.
- The user's typed line for a photo becomes the string argument `userInput`.

Notes on the model:

- Blank lines in the image list are not skipped. GroupImages.py:203-205
  passes every line, after `rstrip()`, to `getGID`. A blank line therefore
  reaches the loader. The loader fails on it and the run ends.
- The search loop keeps Python's `for … else`. The loop sets a `found` flag
  and leaves with `break`. The reset-and-increment branch runs only when the
  flag is still unset.
- `NextGid` has a ghost result `probed`. It lists, in order, the retained
  indexes the oracle was consulted on. Its contract ties this list to `Probes`.

## Model

| member | source | states |
|---|---|---|
| `GroupImages.LatestMatch` | GroupImages.py:77-97 | The search result is the index of the newest retained feature set with more than 100 inliers. Every newer entry has at most 100 inliers. The result is `None` exactly when no retained entry overlaps. |
| `GroupImages.Probes` | GroupImages.py:77-94 | The oracle is consulted on retained indexes from the last one downwards, one index per step. Every consulted entry except the last did not overlap. Nothing is consulted only when the retained list is empty. |
| `GroupImages.ProbesStopAtLatestMatch` | GroupImages.py:91-94 | The search consults entries down to the newest match and stops there. Entries older than the match are never tested. With no match, every retained entry is tested. |
| `GroupImages.Assign` | GroupImages.py:77-113 | If some retained entry overlaps, the id is unchanged and the retained list is the old list with the new image appended. If none does (including an empty list), the id goes up by exactly 1 and the retained list is exactly `[new]`. |
| `GroupImages.AssignSteps` | GroupImages.py:99-109 | After every assignment the id is the old id or the old id + 1. The retained list is non-empty and ends with the new image. An unchanged id means nothing was dropped; an incremented id means only the new image is retained. |
| `GroupImages.FirstImageGetsStartGid` | GroupImages.py:62-69 | The constructor's decrement is undone by the first image, which is given `startGid`. |
| `GroupImages.ThresholdIsStrict` | GroupImages.py:89-91 | Exactly 100 inliers is not an overlap and starts a new group. 101 inliers joins the group. |
| `GroupImages.SearchContinuesPastMismatch` | GroupImages.py:91-97 | With `a` and `b` retained, an image that fails against `b` is still tested against `a` (probe order `[1, 0]`). It joins the group when it overlaps `a`. |
| `GroupImages.SearchStopsAtNewest` | GroupImages.py:91-94 | For any group id, an image that overlaps the newest retained entry is tested against that entry only, and joins the group under the same id. |
| `GroupImages.Run` | GroupImages.py:203-205 | Assigning a sequence yields one id per image, in input order. After a non-empty sequence, the last id is the current group id and the last image is retained last. |
| `GroupImages.IdsStepByAtMostOne` | GroupImages.py:99-105 | Over any sequence of images, ids never decrease and each step is 0 or +1. The first id is the start id or one more; it is exactly one more when nothing was retained. |
| `GroupImages.RunFromStart` | GroupImages.py:201-205 | From a freshly built assigner, the first image gets `startGid` and later ids step by 0 or 1. |
| `GroupImages.NoOverlapMeansAllNewGroups` | GroupImages.py:99-105 | When no image of the run overlaps an earlier image of the run, nor anything retained at the start, image k (counting from 0) gets the id held before the run + k + 1. Every image is its own group, and only the last image is retained at the end. |
| `GroupImages.OverlapWithEarlierKeepsOneGroup` | GroupImages.py:91-94 | When every image after the first overlaps at least one earlier image of the run (not necessarily the one just before it), the whole run gets one id. Every image of the run is still retained at the end. They come after the old retained list when the first image joined the current group, and stand alone when the first image opened a new group. |
| `GroupImages.RecencyScenario` | GroupImages.py:77-97 | Case: `b` joined `a`'s group, and `c` overlaps `a` but not `b`. Then `a`, `b` and `c` all get group 0. |
| `GroupImages.Initial` | GroupImages.py:62-69 | The state after construction holds nothing and its id is below `startGid`. `FirstImageGetsStartGid` shows the first image then gets `startGid`. |
| `GroupImages.MatchedPoints` | GroupImages.py:83-84 | RANSAC gets one source point and one destination point per descriptor match. The source point is the new image's matched keypoint and the destination point is the retained image's. Each has its (row, column) swapped to (x, y). |
| `GroupImages.PanoramaGroup.constructor` | GroupImages.py:62-69 | Stores the name, sets the id to `startGid - 1` and empties the retained list. |
| `GroupImages.PanoramaGroup.NextGid` | GroupImages.py:71-113 | The new id and retained list are exactly `Assign` of the old ones. The returned id is the stored id. The probes are exactly `Probes` of the old retained list. |
| `GroupImages.PanoramaGroup.GetGid` | GroupImages.py:33-36 | Stores the id that `NextGid` computes and returns it. The resulting state is `Assign` of the old state. |
| `GroupImages.OutputLine` | GroupImages.py:205 | The printed line for one image: its reference, two spaces, its group id in decimal. `OutputLineReadsBack` states what the line contains. |
| `GroupImages.OutputLineReadsBack` | GroupImages.py:205 | An output line starts with the image reference, then two spaces. The text after them is a token that `int()` accepts and reads back as the group id. |
| `GroupImages.OutputLines` | GroupImages.py:203-209 | There is one output line per image, in order. Line k is the right-stripped reference of line k with the id of image k. |
| `GroupImages.GroupImageList` | GroupImages.py:201-209 | There is one output line per loaded image, in input order: the right-stripped line, two spaces, then the id `Run` gives from a start id of 0. The run completes exactly when every image loads. Otherwise it stops at the first image that fails to load, and the lines already produced are kept. |
| `PyText.RStrip` | GroupImages.py:204 | `rstrip()` returns a prefix of the line that does not end in whitespace. Everything it removes is whitespace. |
| `PyText.Split` | CatagarisePhotos.py:57 | `split()` returns non-empty tokens that contain no whitespace. `SplitTokenizes` and `SplitOfTokenization` pin down which tokens these are. |
| `PyText.SplitTokenizes` | CatagarisePhotos.py:57 | Any line, including one with tabs, runs of whitespace, or leading or trailing whitespace, is the tokens of `split()` in order, with whitespace-only gaps around them. Every gap between two tokens is non-empty. |
| `PyText.SplitOfTokenization` | CatagarisePhotos.py:57 | Conversely, if a line is some whitespace-free words with whitespace-only gaps around them, and no two words touch, then `split()` returns exactly those words. |
| `PyText.SplitJoin` | CatagarisePhotos.py:69 | Splitting `' '.join(words)` gives back the words, whenever every word is non-empty and free of whitespace. |
| `PyText.NatToString` | GroupImages.py:205 | The decimal text of a natural number is digits only and reads back as the same number. It starts with `0` only when it is exactly `"0"`. |
| `PyText.IntToString` | CatagarisePhotos.py:52 | The decimal text of an integer is non-empty and starts with `-` exactly when the integer is negative. |
| `PyText.JoinStartsWithFirst` | CatagarisePhotos.py:69 | `' '.join(words)` of a non-empty list starts with the first word. `PyText.Join` has no contract of its own. This lemma and `SplitJoin` state what it does. |
| `PyText.IsNumber` | CatagarisePhotos.py:39-44 | `is_number(s)` for a token without whitespace: an optional `+` or `-` sign, then at least one decimal digit. `IntToStringRoundTrip` shows it accepts every formatted integer. |
| `PyText.ParseInt` | CatagarisePhotos.py:60 | `int(s)` for a token `is_number` accepts. A negative value comes only from a leading `-`, and a leading `-` never gives a positive value. `IntToStringRoundTrip` shows it inverts formatting. |
| `PyText.IntToStringRoundTrip` | CatagarisePhotos.py:39-44 | The text of any integer is a whitespace-free token that `is_number` accepts, and `int()` reads it back as the same integer. |
| `CatagarisePhotos.PyIndex` | CatagarisePhotos.py:59-62 | Python list lookup succeeds exactly for indexes in `[-len, len)`. The entry found is in the list, and a non-negative index gives the entry at that position. |
| `CatagarisePhotos.NegativeIndexCountsFromEnd` | CatagarisePhotos.py:60 | Index `k - len` gives the same entry as index `k`. |
| `CatagarisePhotos.ResolveToken` | CatagarisePhotos.py:58-66 | One token only appends: the old registry is a prefix of the new one, and the old tag list a prefix of the new one. |
| `CatagarisePhotos.ResolveTokenEffect` | CatagarisePhotos.py:58-66 | A numeric token leaves the registry unchanged. It adds the entry it indexes, or nothing when the index is out of range. A non-numeric token is always added to the tags, and to the registry only when absent. |
| `CatagarisePhotos.ResolveAll` | CatagarisePhotos.py:57-66 | Resolving a line adds at most one tag per token, and at most one registry entry per token. |
| `CatagarisePhotos.RegistryIsAppendOnly` | CatagarisePhotos.py:65-66 | Over a whole line, the registry before is a prefix of the registry after. The same holds for the tag list. |
| `CatagarisePhotos.RegistryStaysDuplicateFree` | CatagarisePhotos.py:65-66 | A registry without duplicates stays without duplicates. |
| `CatagarisePhotos.RegistryContents` | CatagarisePhotos.py:57-66 | A string is in the registry afterwards exactly when it was there before or is a non-numeric token of the line. |
| `CatagarisePhotos.ResolvedTagsAreTags` | CatagarisePhotos.py:58-66 | Start from a registry and tag list of non-numeric words. Then no registry entry and no output tag afterwards is numeric, so a numeric token never appears as typed. |
| `CatagarisePhotos.ResolvedTagsAreRegistered` | CatagarisePhotos.py:58-66 | If the photo's tags so far are registered (none are, at the start of a line), every tag it has after the line is in the registry. |
| `CatagarisePhotos.TagsWithoutNumbersAreEchoed` | CatagarisePhotos.py:63-64 | A line with no numeric tokens gives exactly its tokens as tags, in order, repeats included. |
| `CatagarisePhotos.NewTagUsableInSameLine` | CatagarisePhotos.py:57-66 | A new tag followed by its own new serial number, or by `-1`, gives that tag twice. The registry is updated inside the loop. |
| `CatagarisePhotos.MenuEntry` | CatagarisePhotos.py:52 | One menu entry: the serial number, a colon, the tag, then `"  | "`. `MenuEntryReadsBack` states its parts. |
| `CatagarisePhotos.MenuEntryReadsBack` | CatagarisePhotos.py:52 | A menu entry splits exactly into the serial number's text, `:`, the tag and `"  | "`, at the positions their lengths give. |
| `CatagarisePhotos.MenuText` | CatagarisePhotos.py:50-52 | The menu is empty exactly when the registry is empty. `MenuListsEntriesInOrder` places each entry. |
| `CatagarisePhotos.MenuListsEntriesInOrder` | CatagarisePhotos.py:50-52 | Entry `i` of the menu comes right after entries 0 to i - 1. |
| `CatagarisePhotos.MenuLabelResolvesToItsTag` | CatagarisePhotos.py:51-52 | Menu entry `i` starts with the text of `i`. Typing that number resolves to registry entry `i` and leaves the registry unchanged. |
| `CatagarisePhotos.OutputLine` | CatagarisePhotos.py:69 | The output line starts with the photo name. |
| `CatagarisePhotos.OutputLineSplitsBack` | CatagarisePhotos.py:69 | For a photo name and tags that are all non-empty and free of whitespace, the output line splits back into the name followed by the tags. |
| `CatagarisePhotos.TagRegistry.constructor` | CatagarisePhotos.py:35 | The registry starts empty. |
| `CatagarisePhotos.TagRegistry.Menu` | CatagarisePhotos.py:50-52 | The accumulated menu string is `MenuText` of the registry. |
| `CatagarisePhotos.TagRegistry.ResolveInput` | CatagarisePhotos.py:56-66 | The tag list and the new registry are `ResolveAll` of the split input from the old registry. The registry stays duplicate-free and holds only non-numeric words. |
| `CatagarisePhotos.TagRegistry.CategoriseImage` | CatagarisePhotos.py:47-69 | For one photo: the menu is built from the registry before input. The registry is updated from the input line. The output line is the right-stripped photo name joined with the resolved tags. |

## Left out

- ORB feature detection, `match_descriptors` and `ransac` with `ProjectiveTransform` (GroupImages.py:65, 74, 79, 86-87) are library code with floating-point geometry and random sampling. They are the `inliers` oracle. A zero-keypoint image is not modelled on its own: it is whatever the oracle reports.
- RANSAC's randomness is not modelled: the oracle is a function of the two feature sets, so equal (retained, new) pairs always get the same count. In the source, two equal feature sets retained in one group (the same file listed twice) can give different counts against one new image within a single `NextGID` call. The model cannot show an image that joins only because a second RANSAC run on the same pair scored higher.
- `GroupChecker.LoadImage` (GroupImages.py:42-54): file reading and float rescaling. It is the `extract` parameter, with `None` for the re-raised `IOError`.
- `HSVColorVectorGroup` (GroupImages.py:116-169) is unfinished in the source: its comparison loop is empty and `NextGID` returns `None`. `MeasureColorVector` is float histogramming.
- Logging, `sys.argv` checks, opening and appending to files, `print` and `sys.exit` in both scripts. `GroupImageList` returns the output lines instead of printing and appending them.
- The image viewer subprocess, `raw_input`, `os.kill` and the `readline` import in CatagarisePhotos.py. The typed line is the `userInput` argument, and the "not in printed taglist" message is not modelled.
- The per-photo loop of CatagarisePhotos.py (47-71) is not a method. Each iteration is one `CategoriseImage` call on a `TagRegistry` that is kept between calls.
- PyText.IsNumber: models `int(s)` for strings without whitespace (an optional sign, then ASCII digits). Python's `int()` also skips whitespace around the literal. The script only applies `is_number` to tokens from `split()`, which never contain whitespace.
- Strings are sequences of characters. Python 2 byte strings and their encodings are not modelled.
