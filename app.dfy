/** The status downloader app with its widgets replaced by the state they hold:
    the status items and their check boxes, the grid that shows them, and
    whether the "Download Selected" button is disabled. The storage root, the
    existence of the status folder, its listing and the outcome of each file
    copy are inputs. */
module Downloader {
  import opened Paths
  import opened Media
  import opened Decimal

  datatype Option<T> = None | Some(value: T)

  /** A popup as the app opens it: a title and a message. */
  datatype Popup = Popup(title: string, message: string)

  /** Where the status files and the downloads live, below the storage root. */
  const STATUS_SUBFOLDER: string := "Android/media/com.whatsapp/WhatsApp/Media/.Statuses"
  const DOWNLOAD_SUBFOLDER: string := "Download"

  const FOLDER_MISSING: Popup := Popup("Error", "WhatsApp Status folder not found or no statuses available.")
  const NO_STATUS_FILES: Popup := Popup("Info", "No status files found.")
  const NO_SELECTION: Popup := Popup("Warning", "No files selected.")

  const SUCCESS_PREFIX: string := "Downloaded "
  const SUCCESS_SUFFIX: string := " files to Downloads."

  /** The popup that ends a download, announcing `count` files: the numeral
      between its fixed words reads back as `count`. */
  function SuccessPopup(count: nat): (p: Popup)
    ensures p.title == "Success"
    ensures |SUCCESS_PREFIX| + |SUCCESS_SUFFIX| <= |p.message|
    ensures var digits := p.message[|SUCCESS_PREFIX|..|p.message| - |SUCCESS_SUFFIX|];
      (forall i :: 0 <= i < |digits| ==> IsDigit(digits[i])) && ParseDecimal(digits) == count
  {
    var digits := NatToString(count);
    var message := SUCCESS_PREFIX + digits + SUCCESS_SUFFIX;
    assert message[|SUCCESS_PREFIX|..|message| - |SUCCESS_SUFFIX|] == digits;
    ParseNatToString(count);
    Popup("Success", message)
  }

  /** The success popup names its count unambiguously. */
  lemma SuccessPopupCount(m: nat, n: nat)
    ensures SuccessPopup(m) == SuccessPopup(n) <==> m == n
  {
  }

  /** One status file in the grid: its path, the kind of widget chosen for it,
      and its check box. */
  class StatusItem {
    const filepath: string
    /** The widget chosen for the file, from its extension. */
    const kind: Kind := KindOf(filepath)
    var selected: bool

    constructor (filepath: string)
      ensures this.filepath == filepath && !selected
    {
      this.filepath := filepath;
      selected := false;
    }

    /** The check box of this item changed to `value`. */
    method OnCheckboxActive(value: bool)
      modifies this
      ensures selected == value
    {
      selected := value;
    }
  }

  /** any(item.selected for item in items): some check box is ticked. */
  predicate AnySelected(items: seq<StatusItem>)
    reads items
    ensures AnySelected(items) ==> items != []
  {
    exists i :: 0 <= i < |items| && items[i].selected
  }

  /** The items whose check box is ticked, in list order. */
  function SelectedItems(items: seq<StatusItem>): (batch: seq<StatusItem>)
    reads items
    ensures |batch| <= |items|
    ensures forall x :: x in batch ==> x in items && x.selected
    ensures forall i :: 0 <= i < |items| && items[i].selected ==> items[i] in batch
  {
    if items == [] then []
    else
      var rest := SelectedItems(items[1..]);
      assert forall i :: 1 <= i < |items| ==> items[i] == items[1..][i - 1];
      (if items[0].selected then [items[0]] else []) + rest
  }

  /** Selecting from a list in two parts gives the two selections one after
      the other: the batch keeps the list order. */
  lemma {:induction false} SelectedItemsAppend(a: seq<StatusItem>, b: seq<StatusItem>)
    ensures SelectedItems(a + b) == SelectedItems(a) + SelectedItems(b)
  {
    if a == [] {
      assert a + b == b;
    } else {
      assert (a + b)[1..] == a[1..] + b;
      SelectedItemsAppend(a[1..], b);
    }
  }

  /** Some check box is ticked exactly when the batch is not empty. */
  lemma AnySelectedIffBatch(items: seq<StatusItem>)
    ensures AnySelected(items) <==> SelectedItems(items) != []
  {
    if SelectedItems(items) != [] {
      var x := SelectedItems(items)[0];
      assert x in SelectedItems(items);
      var i :| 0 <= i < |items| && items[i] == x;
    }
  }

  /** One copy of a selected file into the downloads folder, and whether it
      completed without an exception (`ok`). A copy that raised is printed and
      otherwise ignored; it may still have left a file at `dest`. */
  datatype CopyAttempt = CopyAttempt(source: string, dest: string, ok: bool)

  /** The k-th selected item was copied, as the k-th attempt, to the file of
      the same base name in `downloads`; `copySucceeds` tells which copies
      completed without an exception. */
  predicate CopiedInOrder(attempts: seq<CopyAttempt>, batch: seq<StatusItem>, downloads: string,
                          copySucceeds: nat -> bool)
  {
    |attempts| == |batch| &&
    forall k :: 0 <= k < |batch| ==>
      attempts[k] == CopyAttempt(batch[k].filepath, Destination(downloads, batch[k].filepath), copySucceeds(k))
  }

  /** os.path.join(DOWNLOADS_FOLDER, os.path.basename(path)): where a copy of
      `path` is saved. */
  function Destination(downloads: string, path: string): (dest: string)
    ensures Basename(dest) == Basename(path)
  {
    BasenameOfJoin(downloads, Basename(path));
    Join(downloads, Basename(path))
  }

  /** The number of copies that completed without an exception. */
  function CountCopied(attempts: seq<CopyAttempt>): (n: nat)
    ensures n <= |attempts|
  {
    if attempts == [] then 0
    else (if attempts[0].ok then 1 else 0) + CountCopied(attempts[1..])
  }

  /** Every copy completed without an exception exactly when the count is the
      number of attempts. */
  lemma {:induction false} CountCopiedBounds(attempts: seq<CopyAttempt>)
    ensures CountCopied(attempts) == |attempts| <==> forall k :: 0 <= k < |attempts| ==> attempts[k].ok
  {
    if attempts != [] {
      CountCopiedBounds(attempts[1..]);
      assert forall k :: 1 <= k < |attempts| ==> attempts[k] == attempts[1..][k - 1];
    }
  }

  /** N copies of which only the k-th raises: N - 1 complete without an exception. */
  lemma {:induction false} CountCopiedOneFailure(attempts: seq<CopyAttempt>, k: nat)
    requires k < |attempts| && !attempts[k].ok
    requires forall j :: 0 <= j < |attempts| && j != k ==> attempts[j].ok
    ensures CountCopied(attempts) == |attempts| - 1
  {
    if k == 0 {
      CountCopiedBounds(attempts[1..]);
    } else {
      CountCopiedOneFailure(attempts[1..], k - 1);
    }
  }

  /** The success popup announces every selected file, so as soon as one copy
      raises it names more files than were copied without error. */
  lemma ReportOverCounts(attempts: seq<CopyAttempt>, batch: seq<StatusItem>, downloads: string,
                         copySucceeds: nat -> bool, k: nat)
    requires CopiedInOrder(attempts, batch, downloads, copySucceeds)
    requires k < |batch| && !copySucceeds(k)
    ensures CountCopied(attempts) < |batch|
    ensures SuccessPopup(|batch|) != SuccessPopup(CountCopied(attempts))
  {
    CountCopiedBounds(attempts);
    SuccessPopupCount(|batch|, CountCopied(attempts));
  }

  /** A scanned file is saved under its own name in the downloads folder. */
  lemma DestinationOfScannedFile(statusFolder: string, downloads: string, name: string)
    requires NoSeparator(name)
    ensures Destination(downloads, Join(statusFolder, name)) == Join(downloads, name)
  {
    BasenameOfJoin(statusFolder, name);
  }

  /** The background download: copy each item of the batch, in order, to the
      downloads folder under its base name, carry on past failed copies, then
      announce the size of the whole batch. */
  method DoDownload(selectedItems: seq<StatusItem>, downloadsFolder: string, copySucceeds: nat -> bool)
    returns (attempts: seq<CopyAttempt>, report: Popup)
    ensures CopiedInOrder(attempts, selectedItems, downloadsFolder, copySucceeds)
    ensures report == SuccessPopup(|selectedItems|)
  {
    attempts := [];
    for k := 0 to |selectedItems|
      invariant |attempts| == k
      invariant forall j :: 0 <= j < k ==>
        attempts[j] == CopyAttempt(selectedItems[j].filepath, Destination(downloadsFolder, selectedItems[j].filepath),
                                   copySucceeds(j))
    {
      var item := selectedItems[k];
      var dest := Destination(downloadsFolder, item.filepath);
      var ok := copySucceeds(k);
      attempts := attempts + [CopyAttempt(item.filepath, dest, ok)];
    }
    report := SuccessPopup(|selectedItems|);
  }

  /** What pressing "Download Selected" leads to. */
  datatype DownloadPress =
    | StatusItemsMissing
      // no load has succeeded yet, so the item list the handler reads does not exist
    | NothingSelected(warning: Popup)
    | Downloaded(attempts: seq<CopyAttempt>, report: Popup)

  class StatusDownloaderApp {
    const statusFolder: string
    const downloadsFolder: string
    /** Whether a load has assigned the item list; before that it does not exist
        and `statusItems` is empty. */
    var loaded: bool
    var statusItems: seq<StatusItem>
    /** The items the grid currently shows. */
    var grid: seq<StatusItem>
    var downloadDisabled: bool

    /** The app's invariant: the list exists once it is non-empty, the grid
        shows it or nothing, its items are distinct objects, and the download
        button is disabled exactly when no item is ticked. */
    ghost predicate Valid()
      reads this, statusItems
    {
      (loaded <==> statusItems != []) &&
      (grid == [] || grid == statusItems) &&
      (forall j, k :: 0 <= j < k < |statusItems| ==> statusItems[j] != statusItems[k]) &&
      downloadDisabled == !AnySelected(statusItems)
    }

    /** The check box states, in list order. */
    function Selection(): (s: seq<bool>)
      reads this, statusItems
      ensures |s| == |statusItems|
      ensures (true in s) <==> AnySelected(statusItems)
    {
      var s := seq(|statusItems|, k requires 0 <= k < |statusItems| reads this, statusItems => statusItems[k].selected);
      assert AnySelected(statusItems) ==> true in s by {
        if AnySelected(statusItems) {
          var k :| 0 <= k < |statusItems| && statusItems[k].selected;
          assert s[k];
        }
      }
      s
    }

    /** Starts the app: the two folders below the storage root, an empty grid,
        no item list yet, and a disabled download button. */
    constructor (storageRoot: string)
      ensures statusFolder == Join(storageRoot, STATUS_SUBFOLDER)
      ensures downloadsFolder == Join(storageRoot, DOWNLOAD_SUBFOLDER)
      ensures Valid() && !loaded && statusItems == [] && grid == [] && downloadDisabled
    {
      statusFolder := Join(storageRoot, STATUS_SUBFOLDER);
      downloadsFolder := Join(storageRoot, DOWNLOAD_SUBFOLDER);
      loaded := false;
      statusItems := [];
      grid := [];
      downloadDisabled := true;
    }

    /** "Load Statuses": clear the grid; if the folder is missing or nothing in
        it passes the filter, say so and keep the previous item list; otherwise
        make a fresh, unticked item for every file the scan keeps. */
    method LoadStatuses(folderExists: bool, listing: seq<string>) returns (popup: Option<Popup>)
      requires Valid()
      modifies this
      ensures Valid()
      ensures !folderExists ==> popup == Some(FOLDER_MISSING)
      ensures folderExists && ScanFilter(statusFolder, listing) == [] ==> popup == Some(NO_STATUS_FILES)
      ensures popup != None ==>
        grid == [] && loaded == old(loaded) && statusItems == old(statusItems) &&
        downloadDisabled == old(downloadDisabled)
      ensures folderExists && ScanFilter(statusFolder, listing) != [] ==>
        var files := ScanFilter(statusFolder, listing);
        popup == None && loaded && grid == statusItems && downloadDisabled &&
        |statusItems| == |files| &&
        forall k :: 0 <= k < |files| ==>
          fresh(statusItems[k]) && statusItems[k].filepath == files[k] &&
          !statusItems[k].selected
    {
      grid := [];
      if !folderExists {
        return Some(FOLDER_MISSING);
      }
      var files := ScanFilter(statusFolder, listing);
      if files == [] {
        return Some(NO_STATUS_FILES);
      }
      statusItems := [];
      loaded := true;
      for i := 0 to |files|
        invariant |statusItems| == i && grid == statusItems
        invariant forall k :: 0 <= k < i ==>
          fresh(statusItems[k]) && statusItems[k].filepath == files[k] &&
          !statusItems[k].selected
        invariant forall j, k :: 0 <= j < k < i ==> statusItems[j] != statusItems[k]
        invariant loaded
      {
        var item := new StatusItem(files[i]);
        grid := grid + [item];
        statusItems := statusItems + [item];
      }
      UpdateDownloadBtn();
      popup := None;
    }

    /** Disable the download button exactly when no item is ticked (with no
        item list yet, nothing is ticked). */
    method UpdateDownloadBtn()
      modifies this`downloadDisabled
      ensures downloadDisabled == !AnySelected(statusItems)
    {
      downloadDisabled := !AnySelected(statusItems);
    }

    /** The check box of the i-th shown item changed to `value`: the item
        records it, then the app recomputes the download button. Only items the
        grid shows have a check box the user can reach. */
    method CheckboxToggled(i: nat, value: bool)
      requires Valid() && i < |grid|
      modifies grid[i], this`downloadDisabled
      ensures Valid()
      ensures Selection() == old(Selection())[i := value]
      ensures downloadDisabled == !AnySelected(statusItems)
    {
      grid[i].OnCheckboxActive(value);
      UpdateDownloadBtn();
    }

    /** Before any load the download button is disabled. */
    lemma NeverLoadedMeansDisabled()
      requires Valid() && !loaded
      ensures downloadDisabled
    {
    }

    /** The download button is disabled exactly when pressing it would only
        warn that nothing is selected. */
    lemma DisabledIffNothingSelected()
      requires Valid()
      ensures downloadDisabled <==> SelectedItems(statusItems) == []
    {
      AnySelectedIffBatch(statusItems);
    }

    /** "Download Selected": take the ticked items as they are now; warn if there
        are none, else copy them all and announce how many were selected. */
    method DownloadSelected(copySucceeds: nat -> bool) returns (r: DownloadPress)
      ensures !loaded ==> r == StatusItemsMissing
      ensures loaded && SelectedItems(statusItems) == [] ==> r == NothingSelected(NO_SELECTION)
      ensures loaded && SelectedItems(statusItems) != [] ==>
        r.Downloaded? &&
        CopiedInOrder(r.attempts, SelectedItems(statusItems), downloadsFolder, copySucceeds) &&
        r.report == SuccessPopup(|SelectedItems(statusItems)|)
    {
      if !loaded {
        return StatusItemsMissing;
      }
      var selectedItems := SelectedItems(statusItems);
      if selectedItems == [] {
        return NothingSelected(NO_SELECTION);
      }
      var attempts, report := DoDownload(selectedItems, downloadsFolder, copySucceeds);
      r := Downloaded(attempts, report);
    }
  }
}
