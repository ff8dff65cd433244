# MVTec AD loader, modelled in Dafny

This project models the `MVTecAD` dataset class of `torchvision4ad`. The class exposes
one category of the MVTec Anomaly Detection image dataset as a folder-of-images dataset.
Three parts of its behaviour are modelled and proved here.

- **Class numbering** (`_find_classes`). The sub-directories of a split folder are its
  classes. The model follows the code as written:
  - `'good'` is taken out of the scanned list and put back in front.
  - Every name's label is its position in that list.
  - The returned class list is `sorted` over all names, `'good'` included.

  A scan without `'good'` fails, because `list.remove` raises.
- **Split folder** (`split_folder`). The dataset name is lower-cased. The split folder
  is `root / name / 'train'` when `train is True`, and `root / name / 'test'` for any
  other value.
- **Download and construction** (`download`, `__init__`). `download` does four things:
  - It creates the root.
  - It stops if the split folder already exists.
  - It raises for a name outside the fifteen known categories.
  - Otherwise it fetches `<name>.tar.xz` from the fixed server into the root.

  Construction downloads only when `download is True`. It then fails with
  `DatasetNotFound` unless the split folder exists.

The project has four modules:

- `Outcomes` (`outcomes.dfy`): the error kinds and result types.
- `Text` (`text.dfy`): Python's string order, `sorted`, and ASCII `str.lower`.
- `ClassIndex` (`class_index.dfy`): `_find_classes` as pure functions over the scanned
  directory entries.
- `MVTec` (`mvtec.dfy`): paths, the download decision, and two classes. `FileSystem`
  holds the set of existing paths and a log of fetch calls. `MVTecAD` has the loader's
  fields, plus `Download` and `Create` methods that change the file system.

`_check_exists` is the membership test `SplitPath(root, usingDataset, train) in
fs.paths`. It appears inside the contracts of `MVTecAD.Download` and `MVTecAD.Create`.

The code and the class documentation disagree on the numbering. The class docstring
says defect classes are numbered alphabetically (mvtec.py:38-39), but the code numbers
them in scan order.
The model follows the code. The documented numbering is modelled next to it as
`FindClassesAlphabetical` (see Findings).

## Model

| member | source | states |
|---|---|---|
| `ClassIndex.SubdirNames` | torchvision4ad/datasets/mvtec.py:86 | a name is in the result exactly when the scan holds a directory of that name; the result is no longer than the scan |
| `ClassIndex.SubdirNamesSingle` | torchvision4ad/datasets/mvtec.py:86 | one scanned entry contributes its name exactly when it is a directory, and nothing otherwise |
| `ClassIndex.SubdirNamesAppend` | torchvision4ad/datasets/mvtec.py:86 | the comprehension filters the scan piece by piece: the names of `a + b` are the names of `a` followed by those of `b`, so scan order and multiplicity are kept |
| `ClassIndex.RemoveFirst` | torchvision4ad/datasets/mvtec.py:87 | `list.remove` drops one occurrence (the first) of the name and keeps the others in order, so the list is one shorter |
| `ClassIndex.RemoveFirstPermutes` | torchvision4ad/datasets/mvtec.py:87 | as a multiset, the result of `remove` plus the removed name is the original list |
| `ClassIndex.GoodFirst` | torchvision4ad/datasets/mvtec.py:87-88 | `'good'` is moved to the front; the length is unchanged |
| `ClassIndex.GoodFirstPermutes` | torchvision4ad/datasets/mvtec.py:87-88 | moving `'good'` to the front is a permutation of the scanned names |
| `ClassIndex.IndexMap` | torchvision4ad/datasets/mvtec.py:89 | the enumerate-dict has the list's names as keys; each name maps to a position that holds it, and no later position holds it (a later duplicate wins) |
| `ClassIndex.FindClasses` | torchvision4ad/datasets/mvtec.py:85-90 | fails with `MissingGoodClass` exactly when no `good` directory was scanned; otherwise `classes` is sorted and is a permutation of the scanned names, the keys of `class_to_idx` are exactly those names, and every label is in range |
| `ClassIndex.GoodIndexIsZero` | torchvision4ad/datasets/mvtec.py:87-89 | with unique names and a `good` directory, `class_to_idx['good'] == 0` |
| `ClassIndex.IndexIsShiftedScanPosition` | torchvision4ad/datasets/mvtec.py:86-89 | the name at position `i` among the scanned directory names (files skipped) gets label `i + 1` if it comes before `'good'`, label `i` if after, and `'good'` gets 0 |
| `ClassIndex.IndicesAreBijection` | torchvision4ad/datasets/mvtec.py:86-89 | with unique names, `class_to_idx` is injective, has one key per scanned name, and its labels are exactly `0 .. n-1` |
| `ClassIndex.ClassesAreSortedScan` | torchvision4ad/datasets/mvtec.py:90 | `classes` equals every sorted permutation of the scanned names, so it is the unique one |
| `ClassIndex.SortedNamesGiveAlphabeticalIndices` | torchvision4ad/datasets/mvtec.py:86-89 | for a sorted list of unique names, two defect names' labels are ordered exactly as the names are ordered alphabetically |
| `ClassIndex.SortedScanGivesAlphabeticalIndices` | torchvision4ad/datasets/mvtec.py:86-89 | when the scanned directory names are already in alphabetical order, defect labels are ordered exactly as the names are (a sufficient condition; see the next rows) |
| `ClassIndex.AlphabeticalLabelsForceSorted` | torchvision4ad/datasets/mvtec.py:88-89 | in a list of unique names led by `'good'`, alphabetical enumerate-labels of the other names force those names to be sorted |
| `ClassIndex.GoodThenAlphabeticalIffSorted` | torchvision4ad/datasets/mvtec.py:88-89 | in a list of unique names led by `'good'`, the other names' enumerate-labels are alphabetical exactly when those names are sorted |
| `ClassIndex.DefectLabelsAlphabeticalIff` | torchvision4ad/datasets/mvtec.py:86-89 | the defect labels follow alphabetical order exactly when the scanned directory names with `'good'` removed are in alphabetical order |
| `ClassIndex.UnsortedScanWithAlphabeticalLabels` | torchvision4ad/datasets/mvtec.py:86-89 | the scan `good, crack, dent` is not alphabetical as a whole yet labels `crack` 1 and `dent` 2, so a sorted scan is not necessary |
| `ClassIndex.ThreeSubdirs` | torchvision4ad/datasets/mvtec.py:86 | a scan of three distinct directories yields their names in scan order, and they are unique |
| `ClassIndex.ScanOrderDecidesIndices` | torchvision4ad/datasets/mvtec.py:88-89 | for any defect names `x < y`, the scan `good, y, x` labels `y` 1 and `x` 2, against alphabetical order |
| `ClassIndex.GoodLabelNamesGoodIffFirst` | torchvision4ad/datasets/mvtec.py:89-90 | `classes[class_to_idx['good']] == 'good'` exactly when no scanned name sorts before `'good'` |
| `ClassIndex.DocumentedNumberingFails` | torchvision4ad/datasets/mvtec.py:37-39 | the scan `good, dent, crack` labels `crack` above `dent`, and `classes[class_to_idx['good']]` is not `'good'` |
| `ClassIndex.FindClassesAlphabetical` | torchvision4ad/datasets/mvtec.py:37-39 | the documented numbering: same failure case; `'good'` first, the rest sorted, a permutation of the scanned names |
| `ClassIndex.AlphabeticalKeys` | torchvision4ad/datasets/mvtec.py:37-39 | under the documented numbering, the keys of `class_to_idx` are exactly the scanned names |
| `ClassIndex.GoodThenSortedPair` | torchvision4ad/datasets/mvtec.py:37-39 | in a list of unique names with `'good'` first and the rest sorted, enumerate-labels of defect names follow alphabetical order |
| `ClassIndex.AlphabeticalIndices` | torchvision4ad/datasets/mvtec.py:37-39 | under the documented numbering, `'good'` gets 0, defect labels follow alphabetical order in both directions, and `classes[class_to_idx[c]] == c` for every class |
| `ClassIndex.AlphabeticalIgnoresScanOrder` | torchvision4ad/datasets/mvtec.py:37-39 | the documented numbering is the same for any two scans with the same names |
| `Text.LexLeTotal` | torchvision4ad/datasets/mvtec.py:90 | Python's string order, modelled by `LexLe` (code point by code point, a prefix first), relates any two strings |
| `Text.LexLeAntisymmetric` | torchvision4ad/datasets/mvtec.py:90 | two strings each at most the other are equal |
| `Text.LexLeTransitive` | torchvision4ad/datasets/mvtec.py:90 | the string order is transitive, so `sorted` has a well-defined result |
| `Text.LexLtTrichotomy` | torchvision4ad/datasets/mvtec.py:90 | the strict order `LexLt` (Python's `<` on `str`) is irreflexive and asymmetric, and any two strings are equal or ordered one way |
| `Text.ProperPrefixSortsFirst` | torchvision4ad/datasets/mvtec.py:90 | a proper prefix sorts before the longer string, as Python compares strings |
| `Text.Sort` | torchvision4ad/datasets/mvtec.py:90 | `sorted` yields a sorted permutation of its input |
| `Text.SortedPermutationUnique` | torchvision4ad/datasets/mvtec.py:90 | two sorted lists with the same elements are equal, so the result of `sorted` does not depend on the sorting algorithm |
| `Text.Lower` | torchvision4ad/datasets/mvtec.py:49 | lower-casing keeps the length and lower-cases each ASCII letter |
| `Text.LowerIdempotent` | torchvision4ad/datasets/mvtec.py:49 | lower-casing twice is lower-casing once |
| `Text.LowerIdentifiesCaseVariants` | torchvision4ad/datasets/mvtec.py:49 | two names lower-case to the same string exactly when they differ only in the case of letters |
| `MVTec.SplitName` | torchvision4ad/datasets/mvtec.py:66 | the split is `'train'` exactly when `train is True`, and `'test'` for any other value |
| `MVTec.SplitPath` | torchvision4ad/datasets/mvtec.py:64-67 | the split folder is the root followed by the dataset name and then `'train'` or `'test'` |
| `MVTec.SplitPathInjective` | torchvision4ad/datasets/mvtec.py:64-67 | for paths as component lists, equal split folders mean equal roots, equal dataset names and the same split (see Left out for the strings `os.path.join` merges) |
| `MVTec.CaseVariantsShareSplitPath` | torchvision4ad/datasets/mvtec.py:49 | names that differ only in letter case give the same split folder, and lower-casing again changes nothing |
| `MVTec.BottleSplitPath` | torchvision4ad/datasets/mvtec.py:64-67 | root `data`, name `Bottle` and `train=True` give `data/bottle/train` |
| `MVTec.KnownNamesAreLowerCase` | torchvision4ad/datasets/mvtec.py:42-44 | every known category is its own lower-case form |
| `MVTec.DownloadPlan` | torchvision4ad/datasets/mvtec.py:75-82 | the plan is `Present` (return without fetching) exactly when the split folder exists, even for an unknown name; an unknown name is rejected, again without fetching, exactly when the folder is missing; otherwise the fetch targets `<name>.tar.xz` at the base URL |
| `MVTec.DownloadOutcome` | torchvision4ad/datasets/mvtec.py:75-83 | an existing split folder makes `download` return normally; `download` raises only the unknown-name error or the transfer error |
| `MVTec.DownloadRaisesExactly` | torchvision4ad/datasets/mvtec.py:75-83 | `download` returns exactly when the split folder exists or a known category's archive was extracted; it raises the unknown-name error exactly when the folder is missing and the name is unknown, and the transfer error exactly when a known category's transfer failed |
| `MVTec.FetchIdentifiesDataset` | torchvision4ad/datasets/mvtec.py:81-82 | two categories never fetch the same URL |
| `MVTec.SplitPathNotAPrefix` | torchvision4ad/datasets/mvtec.py:73-75 | creating the root never creates the split folder, so checking after `makedirs` is the same as checking before |
| `MVTec.FileSystem.MakeDirs` | torchvision4ad/datasets/mvtec.py:73 | `makedirs` adds the path and all its leading parts and makes no fetch |
| `MVTec.FileSystem.DownloadAndExtractArchive` | torchvision4ad/datasets/mvtec.py:83 | the fetch is logged with its URL, root and file name; the disk gains what the transfer extracted, and nothing else |
| `MVTec.MVTecAD.constructor` | torchvision4ad/datasets/mvtec.py:49-51 | the dataset name is stored lower-cased; `train` and `root` are stored as given |
| `MVTec.MVTecAD.Download` | torchvision4ad/datasets/mvtec.py:72-83 | the root is created; a fetch is logged only when the plan says fetch; the disk gains the extracted paths only then; the outcome is pass, unknown dataset, or transfer failure as the plan and transfer decide |
| `MVTec.MVTecAD.Create` | torchvision4ad/datasets/mvtec.py:47-60 | without `download is True` nothing on disk changes and no fetch happens; a download error is raised as is, before any existence check; otherwise construction reaches the base-class call exactly when the split folder exists, and fails with `DatasetNotFound` when it does not |
| `MVTec.DownloadTwice` | torchvision4ad/datasets/mvtec.py:27-29 | once an archive holding the split folder has been extracted, a second `download` passes and changes neither the disk nor the fetch log |

## Left out

- The `ImageFolder` base class is not part of this model. That covers sample enumeration, image decoding, `transform` and `target_transform`, and whether the base class calls `_find_classes`. So `MVTecAD.Create` does not build the class list. `FindClasses` stands alone.
- MVTec.MVTecAD.Create: errors raised by the `ImageFolder` base-class call (mvtec.py:59-60) are not modelled, for example a split folder with no class folders or no images. So `Success` means the existence check passed and the base-class call is reached, not that the dataset object was fully built.
- `self.root = root` after the base-class call (mvtec.py:62) depends on the base class, so it is not modelled.
- `extra_repr` is a diagnostic string and is not modelled.
- Directory scans are an input: a sequence of `DirEntry` values, each a name and an is-directory flag. Directory names in one scan are assumed unique, as the file system guarantees (`UniqueNames`).
- `os.path.exists` is modelled as membership in `FileSystem.paths`. `os.makedirs` is modelled as adding every leading part of the root. Its errors are not modelled (permissions, an empty root, a file in the way).
- `download_and_extract_archive` does network transfer, verification and extraction. Its effect is a `Transfer` parameter: the paths it adds and whether it completed. Its failures all become `TransferFailure`.
- Paths are lists of components joined by appending, so these behaviours of `os.path.join` on strings are not modelled:
  - an absolute component discards everything before it;
  - an empty component vanishes, so `join('data/bottle', '', 'train')` is `join('data', 'bottle', 'train')`;
  - a name containing `/` spans several components;
  - a root with a trailing `/` gives the same folder as the root without it.
- MVTec.SplitPathInjective: holds for component-list paths only. On the string inputs above, different roots or names can give the same split folder.
- The defaults `train=True` and `download=False` (mvtec.py:47-48) are not modelled. `MVTecAD.Create` takes both explicitly.
- `Text.Lower` lower-cases ASCII letters only, not the full Unicode mapping of `str.lower`.
- `train` and `download` range over booleans, integers, `None` and strings (`PyValue`). Other Python objects are not modelled. They behave like any non-`True` value.
- A non-string dataset name (which would fail in `.lower()`) and the text of error messages are not modelled.
- Concurrency between loaders that share a root is not modelled. The loader itself has none.
- `setup.py` is packaging metadata with no logic.
- The enumeration of (path, label) samples described for the dataset belongs to the base class and is not part of this model.

## Findings

| source | as written | input that shows it | evidently intended | confidence | as-written member | corrected member |
|---|---|---|---|---|---|---|
| torchvision4ad/datasets/mvtec.py:88-89 | defect labels follow the order in which the directory scan lists the folders | a scan listing `good`, `dent`, `crack` gives `dent` label 1 and `crack` label 2 | defect labels 1, 2, … in alphabetical order, as the class docstring (mvtec.py:38-39) says | medium; not executed | `ClassIndex.ScanOrderDecidesIndices` | `ClassIndex.AlphabeticalIndices` |
| torchvision4ad/datasets/mvtec.py:90 | `classes` is sorted with `'good'` among the others, so `classes[class_to_idx[c]]` need not be `c` | the same scan gives `classes == ['crack', 'dent', 'good']` and `class_to_idx['good'] == 0`, so `classes[0]` is `crack` | a class list in label order, starting with `'good'`, so that `classes[class_to_idx[c]] == c` as in the `ImageFolder` convention. The docstring contradicts itself here: mvtec.py:32 calls `classes` sorted alphabetically, which the code does, while mvtec.py:38-39 puts the normal class at 0. The intended reading rests on the `ImageFolder` convention, not on the docstring | low; not executed | `ClassIndex.GoodLabelNamesGoodIffFirst` | `ClassIndex.AlphabeticalIndices` |
