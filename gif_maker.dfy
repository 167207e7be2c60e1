/**
 * The GIF maker dialog of pymerdoc/gm.py: the ordered list of frame paths
 * with its parallel display list and selected row, the background colour
 * with its palette buttons, the frame delay, and the hand-off of the
 * normalized frames to the GIF encoder.
 */
module GifMaker {
  import opened Wrappers
  import opened Geometry

  const White := Rgb(255, 255, 255)

  /**
   * The colours of the palette buttons, in the order the dialog lays them
   * out: white, black, blue, red, green and gray. (The names only feed
   * the buttons' style sheets.)
   */
  const Palette: seq<Rgb> := [
    White,
    Rgb(0, 0, 0),
    Rgb(0, 0, 255),
    Rgb(255, 0, 0),
    Rgb(0, 255, 0),
    Rgb(128, 128, 128)
  ]

  /** The frame delay in milliseconds: its initial value and the bounds of the delay dialog. */
  const DefaultDelay := 1000
  const MinDelay := 100
  const MaxDelay := 10000

  /** The loop count handed to the GIF encoder; 0 repeats the animation forever. */
  const LoopForever := 0

  /**
   * The checked state of each palette button when `color` is the
   * background. The palette colours are distinct, so a palette colour
   * checks exactly its own button and any other colour checks none.
   */
  function CheckedFor(color: Rgb): (marks: seq<bool>)
    ensures |marks| == |Palette|
    ensures forall k :: 0 <= k < |Palette| ==> (marks[k] <==> Palette[k] == color)
    ensures forall k, j :: 0 <= k < j < |marks| ==> !(marks[k] && marks[j])
    ensures (exists k :: 0 <= k < |marks| && marks[k]) <==> color in Palette
  {
    var marks := seq(|Palette|, k requires 0 <= k < |Palette| => Palette[k] == color);
    assert forall k, j :: 0 <= k < j < |Palette| ==> Palette[k] != Palette[j];
    assert color in Palette ==> exists k :: 0 <= k < |marks| && marks[k] by {
      if color in Palette {
        var k :| 0 <= k < |Palette| && Palette[k] == color;
        assert marks[k];
      }
    }
    marks
  }

  /**
   * The value QInputDialog.getInt hands back for the delay: the spin box
   * keeps the entry within 100..10000.
   */
  function SpinBoxValue(entered: int): (v: int)
    ensures MinDelay <= v <= MaxDelay
    ensures MinDelay <= entered <= MaxDelay ==> v == entered
    ensures entered < MinDelay ==> v == MinDelay
    ensures entered > MaxDelay ==> v == MaxDelay
  {
    if entered < MinDelay then MinDelay else if entered > MaxDelay then MaxDelay else entered
  }

  /**
   * The file name shown in the list for a path, as os.path.basename
   * computes it: the longest suffix without a '/'.
   */
  function Basename(path: string): (name: string)
    ensures |name| <= |path|
    ensures forall k :: 0 <= k < |name| ==> name[k] == path[|path| - |name| + k] && name[k] != '/'
  {
    if path == [] || path[|path| - 1] == '/' then []
    else Basename(path[..|path| - 1]) + [path[|path| - 1]]
  }

  /**
   * The shown name is the whole last component: unless it is the whole
   * path, a '/' comes right before it.
   */
  lemma {:induction false} BasenameIsLastComponent(path: string)
    ensures var name := Basename(path);
      |name| < |path| ==> path[|path| - |name| - 1] == '/'
  {
    if path != [] && path[|path| - 1] != '/' {
      var init := path[..|path| - 1];
      BasenameIsLastComponent(init);
      assert Basename(path) == Basename(init) + [path[|path| - 1]];
    }
  }

  /** A path whose last n characters hold no '/' and follow a '/' is shown as those n characters. */
  lemma {:induction false} BasenameOfLastComponent(path: string, n: nat)
    requires n < |path| && path[|path| - n - 1] == '/'
    requires forall k :: |path| - n <= k < |path| ==> path[k] != '/'
    ensures Basename(path) == path[|path| - n..]
    decreases n
  {
    if n > 0 {
      var init := path[..|path| - 1];
      assert init[|init| - (n - 1) - 1] == path[|path| - n - 1];
      BasenameOfLastComponent(init, n - 1);
      assert path[|path| - n..] == init[|init| - (n - 1)..] + [path[|path| - 1]];
    }
  }

  /** A path `dir/name` with no '/' in `name` is shown as `name`. */
  lemma BasenameAfterSlash(dir: string, name: string)
    requires '/' !in name
    ensures Basename(dir + "/" + name) == name
  {
    var path := dir + "/" + name;
    forall k | |path| - |name| <= k < |path| ensures path[k] != '/' {
      assert path[k] == name[k - |dir| - 1];
    }
    assert path[|path| - |name|..] == name;
    BasenameOfLastComponent(path, |name|);
  }

  predicate NoDuplicates(s: seq<string>) {
    forall i, j :: 0 <= i < j < |s| ==> s[i] != s[j]
  }

  /**
   * The path list after add_files appends, in dialog order, each chosen
   * path it does not hold yet: the old list stays a prefix, and a path is
   * in the result exactly when it was in the list or was chosen.
   */
  function AddAll(list: seq<string>, files: seq<string>): (r: seq<string>)
    ensures |list| <= |r| && r[..|list|] == list
    ensures forall x :: x in r <==> x in list || x in files
    decreases |files|
  {
    if files == [] then list
    else
      var next := if files[0] in list then list else list + [files[0]];
      var r := AddAll(next, files[1..]);
      assert r[..|list|] == r[..|next|][..|list|];
      assert files == [files[0]] + files[1..];
      r
  }

  /** `a` is a subsequence of `b`: its elements occur in `b` in the same order. */
  predicate SubsequenceOf(a: seq<string>, b: seq<string>)
    decreases |b|
  {
    if a == [] then true
    else if b == [] then false
    else (a[0] == b[0] && SubsequenceOf(a[1..], b[1..])) || SubsequenceOf(a, b[1..])
  }

  /**
   * The paths add_files appends come from the chosen ones in the order
   * they were chosen, and a duplicate-free list stays duplicate-free.
   */
  lemma {:induction false} AddAllAppends(list: seq<string>, files: seq<string>)
    ensures var r := AddAll(list, files);
      SubsequenceOf(r[|list|..], files) &&
      (NoDuplicates(list) ==> NoDuplicates(r))
    decreases |files|
  {
    if files != [] {
      var next := if files[0] in list then list else list + [files[0]];
      AddAllAppends(next, files[1..]);
      var r := AddAll(list, files);
      assert r == AddAll(next, files[1..]);
      if files[0] in list {
        assert SubsequenceOf(r[|list|..], files[1..]);
        assert r[|list|..] != [] ==> SubsequenceOf(r[|list|..], files);
      } else {
        assert r[|list|..] == [files[0]] + r[|next|..];
        assert r[|list|..][1..] == r[|next|..];
      }
    }
  }

  /** Choosing only paths the list already holds leaves it unchanged; so adding the same files twice is the same as adding them once. */
  lemma {:induction false} AddAllKnown(list: seq<string>, files: seq<string>)
    requires forall x :: x in files ==> x in list
    ensures AddAll(list, files) == list
    decreases |files|
  {
    if files != [] {
      assert files[0] in list;
      forall x | x in files[1..] ensures x in list {
        assert x in files;
      }
      AddAllKnown(list, files[1..]);
    }
  }

  /**
   * The sequence with the element at `i` taken out, as list.pop(i) leaves
   * it: one shorter, the elements before `i` in place and those after it
   * moved down by one.
   */
  function RemoveAt(s: seq<string>, i: nat): (r: seq<string>)
    requires i < |s|
    ensures |r| == |s| - 1
    ensures forall k :: 0 <= k < i ==> r[k] == s[k]
    ensures forall k :: i <= k < |r| ==> r[k] == s[k + 1]
  {
    s[..i] + s[i + 1..]
  }

  /**
   * pop(i) removes exactly one occurrence of the popped path, which
   * leaves a duplicate-free list duplicate-free and without it.
   */
  lemma RemoveAtShifts(s: seq<string>, i: nat)
    requires i < |s|
    ensures var r := RemoveAt(s, i);
      multiset(r) + multiset{s[i]} == multiset(s) &&
      (NoDuplicates(s) ==> NoDuplicates(r) && s[i] !in r)
  {
    var r := RemoveAt(s, i);
    assert s == s[..i] + [s[i]] + s[i + 1..];
    if NoDuplicates(s) {
      forall p, q | 0 <= p < q < |r| ensures r[p] != r[q] {
        var p', q' := if p < i then p else p + 1, if q < i then q else q + 1;
        assert r[p] == s[p'] && r[q] == s[q'];
      }
      forall k | 0 <= k < |r| ensures r[k] != s[i] {
        if k >= i { assert r[k] == s[k + 1]; }
      }
    }
  }

  /**
   * The sequence with the elements at `i` and `j` exchanged, as the tuple
   * assignment `a[i], a[j] = a[j], a[i]` leaves it: each of the two moves
   * to the other's index and every other element stays.
   */
  function Swap(s: seq<string>, i: nat, j: nat): (r: seq<string>)
    requires i < |s| && j < |s|
    ensures |r| == |s| && r[i] == s[j] && r[j] == s[i]
    ensures forall k :: 0 <= k < |s| && k != i && k != j ==> r[k] == s[k]
  {
    s[i := s[j]][j := s[i]]
  }

  /**
   * A swap keeps the multiset of paths, keeps a duplicate-free list
   * duplicate-free, and is undone by the same swap.
   */
  lemma SwapPermutes(s: seq<string>, i: nat, j: nat)
    requires i < |s| && j < |s|
    ensures var r := Swap(s, i, j);
      multiset(r) == multiset(s) &&
      (NoDuplicates(s) ==> NoDuplicates(r)) &&
      Swap(r, i, j) == s
  {
    var r := Swap(s, i, j);
    if NoDuplicates(s) {
      forall p, q | 0 <= p < q < |r| ensures r[p] != r[q] {
        var p' := if p == i then j else if p == j then i else p;
        var q' := if q == i then j else if q == j then i else q;
        assert r[p] == s[p'] && r[q] == s[q'];
      }
    }
  }

  /**
   * The row that is current after the current row `row` is taken out of a
   * list that had `count` rows. This is Qt's rule, not the program's: a
   * QListWidget is a single-selection view, and
   * QAbstractItemView::rowsAboutToBeRemoved then moves the current index
   * to the following row, or to the preceding one when the last row goes;
   * with no row left nothing is current. The following row takes the
   * removed row's index once the row is gone.
   */
  function RowAfterRemoval(row: nat, count: nat): (next: int)
    requires row < count
    ensures -1 <= next < count - 1
    ensures next == -1 <==> count == 1
  {
    if count == 1 then -1 else if row < count - 1 then row else row - 1
  }

  /** Each row of the list widget shows the base name of the path at the same index. */
  predicate RowsShow(paths: seq<string>, rows: seq<string>) {
    |rows| == |paths| && forall i :: 0 <= i < |paths| ==> rows[i] == Basename(paths[i])
  }

  /** Appending a path together with its basename keeps each row showing its path. */
  lemma AppendKeepsRows(paths: seq<string>, rows: seq<string>, path: string)
    requires RowsShow(paths, rows)
    ensures RowsShow(paths + [path], rows + [Basename(path)])
  {
    var ps, rs := paths + [path], rows + [Basename(path)];
    forall k | 0 <= k < |ps| ensures rs[k] == Basename(ps[k]) {
      if k < |paths| {
        assert rs[k] == rows[k] && ps[k] == paths[k];
      }
    }
  }

  /** Appending a path the list does not hold keeps it duplicate-free. */
  lemma AppendKeepsDistinct(list: seq<string>, path: string)
    requires NoDuplicates(list) && path !in list
    ensures NoDuplicates(list + [path])
  {
    var ps := list + [path];
    forall i, j | 0 <= i < j < |ps| ensures ps[i] != ps[j] {
      if j < |list| {
        assert ps[i] == list[i] && ps[j] == list[j];
      } else {
        assert ps[i] == list[i];
      }
    }
  }

  /** Swapping the same two indices in both lists keeps each row showing its path. */
  lemma SwapKeepsRows(paths: seq<string>, rows: seq<string>, i: nat, j: nat)
    requires RowsShow(paths, rows) && i < |paths| && j < |paths|
    ensures RowsShow(Swap(paths, i, j), Swap(rows, i, j))
  {
    var ps, rs := Swap(paths, i, j), Swap(rows, i, j);
    forall k | 0 <= k < |ps| ensures rs[k] == Basename(ps[k]) {
      if k == i {
        assert rs[k] == rows[j] && ps[k] == paths[j];
      } else if k == j {
        assert rs[k] == rows[i] && ps[k] == paths[i];
      } else {
        assert rs[k] == rows[k] && ps[k] == paths[k];
      }
    }
  }

  /** Removing the same index from both lists keeps each row showing its path. */
  lemma RemoveKeepsRows(paths: seq<string>, rows: seq<string>, i: nat)
    requires RowsShow(paths, rows) && i < |paths|
    ensures RowsShow(RemoveAt(paths, i), RemoveAt(rows, i))
  {
    var ps, rs := RemoveAt(paths, i), RemoveAt(rows, i);
    forall k | 0 <= k < |ps| ensures rs[k] == Basename(ps[k]) {
      if k < i {
        assert rs[k] == rows[k] && ps[k] == paths[k];
      } else {
        assert rs[k] == rows[k + 1] && ps[k] == paths[k + 1];
      }
    }
  }

  /** What the Convert to GIF button leads to. */
  datatype Conversion =
    | NoImages                // the "No images selected." warning
    | Cancelled               // the save dialog was dismissed
    | DecodeFailed(path: string)  // opening a frame raised; nothing is written
    | NormalizeFailed         // normalize_images reported an error and returned None
    | Encode(request: GifRequest) // the frames are handed to the GIF encoder

  /** The multi-frame save request: the frames in order, one delay for all of them, and the loop count. */
  datatype GifRequest = GifRequest(destination: string, frames: seq<Frame>, duration: int, loop: int)

  /**
   * Opens every path in order; the first path that cannot be opened
   * aborts with that path.
   */
  function LoadAll(paths: seq<string>, decode: string -> Option<Size>): (r: Result<seq<Size>, string>)
    ensures r.Success? ==> |r.value| == |paths| && forall i :: 0 <= i < |paths| ==> decode(paths[i]) == Some(r.value[i])
    ensures r.Failure? ==> exists k :: 0 <= k < |paths| && paths[k] == r.error && decode(paths[k]).None? &&
                                       forall j :: 0 <= j < k ==> decode(paths[j]).Some?
    ensures r.Failure? <==> exists k :: 0 <= k < |paths| && decode(paths[k]).None?
  {
    if paths == [] then Success([])
    else match decode(paths[0])
      case None => Failure(paths[0])
      case Some(size) =>
        match LoadAll(paths[1..], decode)
        case Success(rest) =>
          assert forall i :: 1 <= i < |paths| ==> paths[i] == paths[1..][i - 1];
          Success([size] + rest)
        case Failure(p) =>
          assert forall i :: 1 <= i < |paths| ==> paths[i] == paths[1..][i - 1];
          Failure(p)
  }

  class GifMakerDialog {
    /** The frame paths, in animation order. */
    var imageList: seq<string>
    /** The rows of the list widget, parallel to imageList. */
    var displayList: seq<string>
    /** The list widget's current row, -1 when no row is selected. */
    var current: int
    var delay: int
    var bgColor: Rgb
    /** The checked state of each palette button. */
    var checked: seq<bool>

    ghost predicate Valid()
      reads this
    {
      RowsShow(imageList, displayList) &&
      NoDuplicates(imageList) &&
      -1 <= current < |imageList| &&
      MinDelay <= delay <= MaxDelay &&
      checked == CheckedFor(bgColor)
    }

    constructor ()
      ensures Valid()
      ensures imageList == [] && displayList == [] && current == -1
      ensures delay == DefaultDelay && bgColor == White && checked == CheckedFor(White)
    {
      imageList, displayList, current := [], [], -1;
      delay := DefaultDelay;
      bgColor := White;
      checked := CheckedFor(White);
    }

    /** set_bg_color: stores the colour and checks exactly the buttons whose colour equals it. */
    method SetBgColor(color: Rgb)
      requires Valid()
      modifies this
      ensures Valid()
      ensures bgColor == color
      ensures forall k :: 0 <= k < |Palette| ==> (checked[k] <==> Palette[k] == color)
      ensures imageList == old(imageList) && displayList == old(displayList)
      ensures current == old(current) && delay == old(delay)
    {
      bgColor := color;
      var marks: seq<bool> := [];
      for k := 0 to |Palette|
        invariant |marks| == k
        invariant forall j :: 0 <= j < k ==> (marks[j] <==> Palette[j] == color)
      {
        marks := marks + [Palette[k] == color];
      }
      checked := marks;
    }

    /** add_files: appends each chosen path not yet in the list, with its display row. */
    method AddFiles(files: seq<string>)
      requires Valid()
      modifies this
      ensures Valid()
      ensures imageList == AddAll(old(imageList), files)
      ensures current == old(current) && delay == old(delay) && bgColor == old(bgColor)
    {
      for i := 0 to |files|
        invariant Valid()
        invariant AddAll(imageList, files[i..]) == AddAll(old(imageList), files)
        invariant current == old(current) && delay == old(delay) && bgColor == old(bgColor)
      {
        assert files[i..][0] == files[i] && files[i..][1..] == files[i + 1..];
        AddFile(files[i]);
      }
      assert files[|files|..] == [];
    }

    /** One pass of the add_files loop: a path not yet in the list is appended with its row. */
    method AddFile(path: string)
      requires Valid()
      modifies this
      ensures Valid()
      ensures imageList == if path in old(imageList) then old(imageList) else old(imageList) + [path]
      ensures current == old(current) && delay == old(delay) && bgColor == old(bgColor)
    {
      if path !in imageList {
        AppendKeepsRows(imageList, displayList, path);
        AppendKeepsDistinct(imageList, path);
        imageList, displayList := imageList + [path], displayList + [Basename(path)];
      }
    }

    /** remove_selected: takes the current row out of both lists; does nothing without a selection. */
    method RemoveSelected()
      requires Valid()
      modifies this
      ensures Valid()
      ensures old(current) < 0 ==> imageList == old(imageList) && current == old(current)
      ensures old(current) >= 0 ==>
        imageList == RemoveAt(old(imageList), old(current)) &&
        current == RowAfterRemoval(old(current), |old(imageList)|)
      ensures old(current) >= 0 && |old(imageList)| > 1 ==>
        0 <= current < |imageList| &&
        imageList[current] == if old(current) < |old(imageList)| - 1
                              then old(imageList)[old(current) + 1]
                              else old(imageList)[old(current) - 1]
      ensures delay == old(delay) && bgColor == old(bgColor)
    {
      if current >= 0 {
        RemoveAtShifts(imageList, current);
        RemoveKeepsRows(imageList, displayList, current);
        var row := current;
        displayList := RemoveAt(displayList, row);
        imageList := RemoveAt(imageList, row);
        current := RowAfterRemoval(row, |imageList| + 1);
      }
    }

    /**
     * A click on a row, or a cleared selection (-1): the list widget's
     * current row changes and nothing else does.
     */
    method SelectRow(row: int)
      requires Valid() && -1 <= row < |imageList|
      modifies this
      ensures Valid() && current == row
      ensures imageList == old(imageList) && displayList == old(displayList)
      ensures delay == old(delay) && bgColor == old(bgColor)
    {
      current := row;
    }

    /** move_up: exchanges the current row with the one above it and follows it; only when a row below the first is selected. */
    method MoveUp()
      requires Valid()
      modifies this
      ensures Valid()
      ensures old(current) > 0 ==>
        imageList == Swap(old(imageList), old(current), old(current) - 1) && current == old(current) - 1
      ensures old(current) <= 0 ==> imageList == old(imageList) && current == old(current)
      ensures delay == old(delay) && bgColor == old(bgColor)
    {
      if current > 0 {
        var row, other := current, current - 1;
        SwapPermutes(imageList, row, other);
        SwapKeepsRows(imageList, displayList, row, other);
        imageList, displayList, current := Swap(imageList, row, other), Swap(displayList, row, other), other;
      }
    }

    /**
     * move_down: exchanges the current row with the one below it and
     * follows it; only when a row above the last is selected. The guard
     * 0 <= current is the corrected one (see MoveDownAsWritten).
     */
    method MoveDown()
      requires Valid()
      modifies this
      ensures Valid()
      ensures 0 <= old(current) < |old(imageList)| - 1 ==>
        imageList == Swap(old(imageList), old(current), old(current) + 1) && current == old(current) + 1
      ensures !(0 <= old(current) < |old(imageList)| - 1) ==> imageList == old(imageList) && current == old(current)
      ensures delay == old(delay) && bgColor == old(bgColor)
    {
      if 0 <= current < |displayList| - 1 {
        var row, other := current, current + 1;
        SwapPermutes(imageList, row, other);
        SwapKeepsRows(imageList, displayList, row, other);
        imageList, displayList, current := Swap(imageList, row, other), Swap(displayList, row, other), other;
      }
    }

    /** set_delay: on OK stores the dialog's value, which lies in 100..10000; on Cancel keeps the delay. */
    method SetDelay(accepted: bool, entered: int)
      requires Valid()
      modifies this
      ensures Valid()
      ensures delay == if accepted then SpinBoxValue(entered) else old(delay)
      ensures imageList == old(imageList) && current == old(current) && bgColor == old(bgColor)
    {
      if accepted {
        delay := SpinBoxValue(entered);
      }
    }

    /**
     * normalize_images: None when the list is empty (max() raises) or a
     * frame has a zero side (the ratio divides by zero); otherwise one
     * normalized frame per input, in input order, on this dialog's
     * background colour. Either exception ends the whole call with None,
     * so the model tests for both before the loop.
     */
    method NormalizeImages(images: seq<Size>) returns (r: Option<seq<Frame>>)
      ensures r.Some? <==> Normalizable(images)
      ensures r.Some? ==> Normalizable(images) && r.value == Normalized(images, bgColor)
    {
      if !Normalizable(images) {
        return None;
      }
      var canvas := Canvas(images);
      var frames: seq<Frame> := [];
      for i := 0 to |images|
        invariant |frames| == i
        invariant forall k :: 0 <= k < i ==> frames[k] == Frame(canvas, bgColor, images[k])
      {
        frames := frames + [Frame(canvas, bgColor, images[i])];
      }
      return Some(frames);
    }

    /**
     * convert_to_gif: warns on an empty list, stops when no destination is
     * chosen, opens every frame in list order (the first failure aborts),
     * normalizes them, and hands the frames in list order to the encoder
     * with this dialog's delay for every frame and an endless loop.
     */
    method ConvertToGif(destination: string, decode: string -> Option<Size>) returns (outcome: Conversion)
      ensures imageList == [] <==> outcome == NoImages
      ensures imageList != [] && destination == "" ==> outcome == Cancelled
      ensures imageList != [] && destination != "" ==>
        match LoadAll(imageList, decode)
        case Failure(path) => outcome == DecodeFailed(path)
        case Success(sizes) =>
          if Normalizable(sizes) then outcome == Encode(GifRequest(destination, Normalized(sizes, bgColor), delay, LoopForever))
          else outcome == NormalizeFailed
    {
      if imageList == [] {
        return NoImages;
      }
      if destination == "" {
        return Cancelled;
      }
      var originals: seq<Size> := [];
      for i := 0 to |imageList|
        invariant |originals| == i
        invariant forall k :: 0 <= k < i ==> decode(imageList[k]) == Some(originals[k])
      {
        var loaded := decode(imageList[i]);
        if loaded.None? {
          ghost var all := LoadAll(imageList, decode);
          assert all.Failure?;
          ghost var k :| 0 <= k < |imageList| && imageList[k] == all.error && decode(imageList[k]).None? &&
                         forall j :: 0 <= j < k ==> decode(imageList[j]).Some?;
          assert k == i;
          return DecodeFailed(imageList[i]);
        }
        originals := originals + [loaded.value];
      }
      ghost var all := LoadAll(imageList, decode);
      assert forall k :: 0 <= k < |imageList| ==> decode(imageList[k]).Some?;
      assert all.Success?;
      assert all.value == originals;
      var normalized := NormalizeImages(originals);
      if normalized.None? {
        return NormalizeFailed;
      }
      return Encode(GifRequest(destination, normalized.value, delay, LoopForever));
    }
  }

  /**
   * move_down as written: its only guard is current < count - 1, so with
   * no selection (row -1) and at least one row it runs. takeItem(-1)
   * returns no item and insertItem ignores it, so the display rows stay
   * put, setCurrentRow(0) selects the first row, and Python's negative
   * index swaps the LAST path with the FIRST.
   */
  function MoveDownAsWritten(paths: seq<string>, rows: seq<string>, row: int): (r: (seq<string>, seq<string>, int))
    requires |rows| == |paths| && -1 <= row < |paths|
    ensures row < |paths| - 1 ==> r.2 == row + 1
    ensures row >= |paths| - 1 ==> r == (paths, rows, row)
    ensures 0 <= row < |paths| - 1 ==> r.0 == Swap(paths, row, row + 1) && r.1 == Swap(rows, row, row + 1)
    ensures row == -1 && |paths| >= 2 ==> r.0 == Swap(paths, |paths| - 1, 0) && r.1 == rows
  {
    if row < |rows| - 1 then
      var i := if row < 0 then row + |paths| else row;
      var swapped := paths[i := paths[row + 1]][row + 1 := paths[i]];
      var shown := if row < 0 then rows else Swap(rows, row, row + 1);
      (swapped, shown, row + 1)
    else (paths, rows, row)
  }

  /** A concrete case: the path list and the display list no longer correspond. */
  lemma MoveDownWithoutSelectionDesyncs()
    ensures var r := MoveDownAsWritten(["frames/a.png", "frames/b.png"], ["a.png", "b.png"], -1);
      r.0 == ["frames/b.png", "frames/a.png"] && r.1 == ["a.png", "b.png"] &&
      r.1[0] != Basename(r.0[0])
  {
    var paths, rows := ["frames/a.png", "frames/b.png"], ["a.png", "b.png"];
    var r := MoveDownAsWritten(paths, rows, -1);
    var moved := r.0;
    assert moved == Swap(paths, 1, 0) && r.1 == rows;
    assert moved == [paths[1], paths[0]];
    assert paths[1] == "frames" + "/" + "b.png";
    BasenameAfterSlash("frames", "b.png");
    assert rows[0][0] != "b.png"[0];
  }
}
