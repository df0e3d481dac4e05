# image_selector: selection toggle and descriptor builder

A Dafny model of the two pieces of logic in the `image_selector` Streamlit
custom component.

- **Frontend selection** (`Selection`, in `selection.dfy`). The React component
  keeps `selected`, the list of image indexes the user has picked. The list
  starts empty. A click on figure `index` filters `index` out when it is
  already there and appends it otherwise. The new list is stored and sent to
  the host with `setComponentValue`. A figure gets the class `"selected"`
  exactly when its index is in the list. `ToggleSeq` is the pure new-list
  expression. The class `Selector` holds `selected` and the value last reported
  to the host (`componentValue`). Its `Click` method refines `ToggleSeq`. The
  lemmas prove these properties of toggling: duplicates never appear, indexes
  stay in range for a fixed image list, only the clicked index changes membership, removal keeps the
  order of the rest, addition appends, and two clicks on an unselected image
  cancel out.
- **Python wrapper** (`Descriptors`, in `descriptors.dfy`). `image_selector`
  loops over `input_files` and builds one `{name, src}` descriptor per entry.
  The name is the entry's `name` attribute if it has one. Otherwise, for a
  string, it is `os.path.basename` of the path. Any other entry raises
  `ValueError("Invalid input_files.")`, and no list is produced. `src` is
  `"data:image/jpeg;base64, "` (with a space after the comma) followed by the
  encoded thumbnail. The component's value is returned unchanged, and it is
  `[]` before any interaction.
- **Session** (`session.dfy`) runs both halves together on the paths
  `images/1.jpg` and `images/2.jpg`. Before a click the wrapper returns
  `[]`. After a click on the second image it returns `[1]`. The names are
  `1.jpg` and `2.jpg`.

Modelling choices:

- An input entry is the record `InputFile(nameAttr, pathString, contents)`
  instead of three disjoint cases. A `str` subclass can have a `name`
  attribute, so both fields may be present. The model then shows that the
  attribute wins, as in the source, where `hasattr` is tested first.
- The thumbnail/JPEG/base64 pipeline is the function parameter
  `payload: seq<bv8> -> string`, applied to the bytes the decoder reads.
  The model makes `src` depend only on those bytes. The `@st.cache_data`
  cache, which looks up a string entry by its path, is left out.
- The framework's component call is not modelled. The value the frontend
  last reported is passed to `ImageSelector` as `reported: Option<seq<nat>>`,
  where `None` means no interaction yet.
- `src` has a space after the comma, `data:image/jpeg;base64, <payload>`
  (`__init__.py:55`), and the model keeps it.

## Model

| member | source | states |
|---|---|---|
| Selection.Remove | image_selector/frontend/src/ImageSelector.tsx:20 | the filtered list holds exactly the old elements other than the clicked index, and is no longer than the old list |
| Selection.ToggleSeq | image_selector/frontend/src/ImageSelector.tsx:19-21 | after a toggle the clicked index is in the list exactly when it was not before, and every other index keeps its membership |
| Selection.RemoveAbsent | image_selector/frontend/src/ImageSelector.tsx:20 | filtering out an index that is absent leaves the list unchanged |
| Selection.RemoveKeepsNoDuplicates | image_selector/frontend/src/ImageSelector.tsx:20 | filtering a list without duplicates gives a list without duplicates |
| Selection.RemoveAt | image_selector/frontend/src/ImageSelector.tsx:20 | in a duplicate-free list, filtering out the element at position k gives the list with only that position removed, the rest in order |
| Selection.RemoveAppend | image_selector/frontend/src/ImageSelector.tsx:20-21 | filtering distributes over concatenation, so filtering after an append reaches both parts |
| Selection.ToggleKeepsNoDuplicates | image_selector/frontend/src/ImageSelector.tsx:19-21 | if the old selection has no duplicates, the new one has none |
| Selection.ToggleKeepsOrder | image_selector/frontend/src/ImageSelector.tsx:19-21 | adding appends at the end, so the old list is a prefix; removing takes out exactly the clicked position and keeps the others in order |
| Selection.ToggleInBounds | image_selector/frontend/src/ImageSelector.tsx:19-21 | if every selected index and the clicked index are below the image count, every index of the new selection is too |
| Selection.ToggleTwiceRestores | image_selector/frontend/src/ImageSelector.tsx:19-21 | clicking an unselected image twice restores the original selection |
| Selection.Selector.constructor | image_selector/frontend/src/ImageSelector.tsx:13 | the selection starts empty and nothing has been reported to the host |
| Selection.Selector.Click | image_selector/frontend/src/ImageSelector.tsx:16-24 | the stored selection becomes the toggled list, the value reported to the host equals it, and the object invariant (no duplicates, report equals state) is kept |
| Selection.Selector.FigureClass | image_selector/frontend/src/ImageSelector.tsx:66 | a figure's class is "selected" exactly when its index is selected, and "" otherwise |
| Descriptors.Basename | image_selector/__init__.py:87 | the result is the suffix of the path after its last '/' (the whole path when there is none), contains no '/', and is empty when the path ends in '/' |
| Descriptors.BasenameUnique | image_selector/__init__.py:87 | that suffix characterisation has exactly one solution, the one Basename returns |
| Descriptors.ResolveName | image_selector/__init__.py:84-89 | a present name attribute is the name even for a string entry; otherwise a string gets its basename; an entry with neither is a ValueError |
| Descriptors.EncodeFile | image_selector/__init__.py:48-55 | every src starts with the literal "data:image/jpeg;base64, " and continues with the payload of the entry's bytes |
| Descriptors.BuildDescriptors | image_selector/__init__.py:82-90 | it succeeds exactly when every entry can be named; then it returns one descriptor per input, in input order, with resolved name and encoded src; otherwise it returns ValueError |
| Descriptors.ImageSelector | image_selector/__init__.py:82-102 | it fails with ValueError exactly when some entry cannot be named; otherwise it returns the reported component value unchanged, or [] when nothing was reported |
| Session.TwoPathsOneClick | image_selector/__init__.py:114-116 | for two string paths the wrapper returns [] before any click and [1] after a click on the second image, and the names are the basenames |

## Left out

- Image decoding, thumbnailing to 256x256, JPEG saving and base64 encoding (`__init__.py:50-54`) are library code. They are the uninterpreted parameter `payload`, so the 256-pixel bound and the base64 alphabet are not stated.
- The `@st.cache_data` memoisation of `_encode_file` is an optimisation and is left out. It looks up a string entry by its path, so it relies on a path keeping the same file, which the model does not state.
- The model assumes the image list stays the same between clicks. With a fixed `key` the component keeps `selected` while `images` may change (`__init__.py:70-72,124-130`); a shorter new list can leave selected indexes out of range, and `Selection.ToggleInBounds` is stated for one fixed image count only.
- Errors that the image decoder raises for unreadable entries are not modelled. A named or string entry always gets a payload.
- `declare_component`, the `_RELEASE` dev-URL/build-path switch, the `key` argument and the re-mount semantics of the component bridge are framework plumbing. `key` is only forwarded, so `ImageSelector` has no `key` parameter.
- The images list built by `BuildDescriptors` is sent to the frontend. The model does not represent that call.
- The demo script and file upload (`__init__.py:105-131`) are Streamlit UI. `Session.TwoPathsOneClick` only replays its first example.
- `isFocused`, `onFocus`/`onBlur`, theme styling, JSX rendering, and all of `image_selector/frontend/src/index.tsx` are React/DOM UI.
- Descriptors.Basename: follows POSIX `os.path.basename` with '/' only. The Windows variant, which also splits at '\\' and drive letters, is not modelled.
- JavaScript numbers are modelled as `nat`. Clicks only come from `images.map` indexes, which are never negative or fractional.
