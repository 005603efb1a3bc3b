# WhatsApp status downloader — a Dafny model of its core

The app (`android.py`, a Kivy application for Android) lists the media files
of WhatsApp's status folder, lets the user tick some of them, and copies the
ticked ones to the device's Download folder. Under its widgets sits a small
piece of sequential logic, modelled here with the widgets and the operating
system replaced by plain data:

- **the folder scan** (`load_statuses`): keep the directory entries whose
  lower-cased name ends with `.jpg`, `.jpeg`, `.png` or `.mp4`, in listing
  order, each joined onto the status folder; stop with a popup when the folder
  is missing or nothing matches (`media.dfy`, `Media.ScanFilter`, and
  `app.dfy`, `StatusDownloaderApp.LoadStatuses`);
- **the classification of a status item** (`StatusItem.__init__`): image,
  video or "Unknown format", from `os.path.splitext` of the lower-cased path
  (`Media.KindOf`, over a model of posixpath's `join`, `basename` and
  `splitext` in `paths.dfy`);
- **the selection state**: each item's `selected` flag, set by its check box,
  and the download button's `disabled` flag, kept equal to "no item is ticked"
  (`StatusItem.OnCheckboxActive`, `StatusDownloaderApp.CheckboxToggled`,
  `StatusDownloaderApp.UpdateDownloadBtn`, and the class invariant `Valid`);
- **the batch copy** (`download_selected` / `do_download`): snapshot the
  ticked items, warn if there are none, otherwise copy each to
  `Download/<basename>` while ignoring individual failures, and announce the
  number of selected files (`DoDownload`, `StatusDownloaderApp.DownloadSelected`).

The storage root, whether the status folder exists, its listing, and the
outcome of each copy are inputs: `storageRoot`, `folderExists`, `listing`, and
`copySucceeds(k)` for the k-th copy of a batch. Popups are returned as values
(`Popup(title, message)`, with the app's exact texts). `decimal.dfy` renders
the count in the success popup as Python's f-string does.

Observable facts the model pins down:

- a load that fails (folder missing, or no matching file) clears the grid but
  leaves the previous item list, its ticks and the download button as they
  were;
- the filter (`endswith`) and the classification (`splitext`) disagree on
  names made of dots before the extension: a file named `.jpg` is listed and
  shown as "Unknown format";
- the success popup counts the selected files, not the copies that completed
  without an exception, so as soon as one copy raises it names more files than
  were copied without error.

Where the intended behaviour of the workflow and the code differ, the model
follows the code: a copy report listing the failed files would be the natural
design, but the code only prints each failure to the console and reports the
batch size; an empty scan could be an ordinary empty result, but the code
shows an "Info" popup and keeps the previous item list.

## Model

| member | source | states |
|---|---|---|
| `Paths.Join` | android.py:133 | the joined path ends with the second component |
| `Paths.Basename` | android.py:132 | the base name holds no separator and is a suffix of the path |
| `Paths.BasenameIsLastComponent` | android.py:132 | `basename` is the longest suffix of the path without a separator |
| `Paths.BasenameOfJoin` | android.py:132-133 | the basename of a listed name joined onto any folder is that name |
| `Paths.JoinInjective` | android.py:105 | different entry names, joined onto the status folder, give different paths (and only they do) |
| `Paths.Lower` | android.py:31 | the lower-cased string has the same length and no upper-case letter, and a string without one is left unchanged |
| `Paths.LowerIdempotent` | android.py:105 | lower-casing an already lower-cased name changes nothing |
| `Paths.SplitExtOfBasename` | android.py:32 | the extension `splitext` finds depends only on the last path component |
| `Paths.SplitExtOfDottedSuffix` | android.py:32 | for a name ending in a dot-led suffix with no further dot, `splitext` returns exactly that suffix, or nothing when only dots precede it |
| `Paths.SplitExt` | android.py:32 | root and extension concatenate back to the path; the extension is empty or a dot followed by neither dot nor separator |
| `Media.PassesFilter` | android.py:105 | a name the filter accepts has at least four characters, the length of the shortest allowed extension |
| `Media.KindOfExtension` | android.py:34-41 | an extension gives a picture or a video exactly when it is one of the four allowed extensions |
| `Media.KindOf` | android.py:31-41 | every path the classification calls image or video also passes the scan filter |
| `Media.AllowedExtensionShape` | android.py:23 | each allowed extension is lower-case, a single dot followed by no dot or separator, and is classified as image or video |
| `Media.KindOfJoin` | android.py:31-32 | the classification of a scanned path is that of its entry name, whatever the status folder |
| `Media.KindOfAcceptedName` | android.py:31-41 | a name the filter accepts through extension e is classified by e, unless only dots come before e, in which case it is "Unknown format" |
| `Media.BareExtensionIsListedButUnknown` | android.py:105 | an entry named just `.jpg`, `.jpeg`, `.png` or `.mp4` passes the filter and its item is classified unknown |
| `Media.ScanFilterAppend` | android.py:105 | scanning a listing in two parts gives the two results in order: the scan keeps listing order |
| `Media.ScanFilterContains` | android.py:105 | a path is in the scan result if and only if its name is listed and its lower-cased name ends with an allowed extension |
| `Media.ScanFilterEmpty` | android.py:105-106 | the scan is empty exactly when no listed entry passes the filter |
| `Media.ScanExample` | android.py:105 | `a.jpg`, `b.mp4`, `c.txt` scan to the first two, in that order |
| `Media.ScanFilter` | android.py:105 | the scan never yields more files than the folder lists |
| `Decimal.NatToString` | android.py:139 | the count is rendered with digits only and no leading zero |
| `Decimal.ParseNatToString` | android.py:139 | reading the rendered count back gives the count |
| `Decimal.NatToStringInjective` | android.py:139 | different counts are rendered differently |
| `Downloader.SuccessPopup` | android.py:139 | the popup is titled "Success" and the numeral between its fixed words reads back as the count |
| `Downloader.SuccessPopupCount` | android.py:139 | two success popups are equal exactly when their counts are |
| `Downloader.StatusItem.constructor` | android.py:26-41 | a new item holds its path, is unticked, and its kind is the classification of its path |
| `Downloader.StatusItem.OnCheckboxActive` | android.py:50-51 | the item's flag becomes the check box value |
| `Downloader.SelectedItems` | android.py:124 | the batch holds exactly the ticked items of the list, never more than the list |
| `Downloader.SelectedItemsAppend` | android.py:124 | selecting from a list in two parts gives the two batches in order: the batch keeps list order |
| `Downloader.AnySelected` | android.py:120 | some item is ticked only in a non-empty list |
| `Downloader.AnySelectedIffBatch` | android.py:120 | some item is ticked if and only if the batch is non-empty |
| `Downloader.Destination` | android.py:132-133 | the destination of a copy has the base name of its source |
| `Downloader.DestinationOfScannedFile` | android.py:132-133 | a scanned file is copied to the downloads folder under its own entry name |
| `Downloader.DoDownload` | android.py:130-139 | one copy attempt per batch item, in batch order, each to `downloads/basename(path)`, a failure not stopping the rest; the popup announces the whole batch size |
| `Downloader.CountCopied` | android.py:131-137 | the number of copies that completed without an exception is at most the number of attempts |
| `Downloader.CountCopiedBounds` | android.py:131-137 | every attempted copy completes without an exception exactly when none raises, i.e. when the count equals the number of attempts |
| `Downloader.CountCopiedOneFailure` | android.py:131-137 | with N attempts of which only one raises, N - 1 copies complete without an exception |
| `Downloader.ReportOverCounts` | android.py:134-139 | when some copy raises, fewer copies complete without an exception than the batch size, and the success popup names more files than were copied without error |
| `Downloader.StatusDownloaderApp.constructor` | android.py:54-70 | the status and downloads folders (the module constants of lines 20-21) sit below the storage root; `build` starts with no item list, an empty grid and a disabled download button |
| `Downloader.StatusDownloaderApp.LoadStatuses` | android.py:99-117 | grid cleared; missing folder gives the "Error" popup, an empty scan the "Info" popup, both keeping list, ticks and button; otherwise one fresh unticked item per scanned file, in order, the grid showing them and the button disabled |
| `Downloader.StatusDownloaderApp.Selection` | android.py:120 | the check box states hold a tick exactly when some item is ticked |
| `Downloader.StatusDownloaderApp.UpdateDownloadBtn` | android.py:119-121 | the button is disabled exactly when no item is ticked (an empty list when none was ever loaded) |
| `Downloader.StatusDownloaderApp.CheckboxToggled` | android.py:113 | only the toggled item's flag changes, to the check box value, and the button again reflects whether any item is ticked |
| `Downloader.StatusDownloaderApp.NeverLoadedMeansDisabled` | android.py:120 | before any load the download button is disabled |
| `Downloader.StatusDownloaderApp.DisabledIffNothingSelected` | android.py:119-127 | the button is disabled exactly when pressing it would only warn "No files selected." |
| `Downloader.StatusDownloaderApp.DownloadSelected` | android.py:123-141 | before any load the handler fails (no item list); with no ticked item it warns and copies nothing; otherwise it copies the ticked items, in list order, and announces their number |

## Left out

- Kivy widgets, layout and rendering, and the loading of images and videos (`AsyncImage`, `Video`): an item records only which widget it would show (`kind`); popups are returned values.
- Android storage permission requests and their callback: the model assumes permission was granted.
- The background thread: `DoDownload` runs to completion when the button is pressed; a second press while a batch is running is not modelled.
- The filesystem: `primary_external_storage_path`, `os.path.exists`, `os.listdir` and `shutil.copy2` are inputs. What a copy writes (contents, metadata, overwriting) is not modelled, only whether it raised; errors raised by `os.listdir` itself are not modelled.
- A failed copy attempt may already have written the destination: `shutil.copy2` copies the contents and then the metadata, so an error while setting permissions or times leaves a complete file, a full disk leaves a partial one, and a destination that is an existing directory receives the file inside it. An attempt's `ok` flag records only whether `copy2` raised, not whether a file is present.
- The listing holds every entry `os.listdir` returns, directories included: a subdirectory named like `x.jpg` passes the scan and becomes an item, and copying it raises in `copy2`; the model covers that only through the `copySucceeds` input.
- The console message printed for a failed copy, and the exception text in it: an attempt records only that it failed.
- `str.lower()` maps only ASCII letters. No other character lowers to a dot, a separator or one of the letters and digits of the allowed extensions, so the filter and the classification are unaffected.
- `os.path.join` is modelled for two components only, the only form the app uses.
- The order in which Kivy runs the two callbacks bound to a check box (the item's own and the app's): `CheckboxToggled` runs the item's handler first.
- Kivy does not deliver presses to a disabled button; `DownloadSelected` models the handler whatever the button state, so its "No files selected." and missing-list cases are reachable only through the handler itself.
- The `__main__` entry point.
