/**
 * The batch driver of scans_to_pdf.py: the per-image pipeline (page crop, border trim,
 * rotation, fixed-width resize), the task list built from the input path, the ordering of
 * the collected results and the empty check before the PDF is written. Images are their
 * sizes; opening files, the worker pool, PIL's rotation and the PDF writer are parameters.
 */
module ScansToPdf {
  import opened Numbers
  import opened Outcomes
  import opened Geometry
  import opened Sorting
  import opened Folds
  import opened Contours
  import opened Rotation
  import opened Paths

  /** In debug mode only the first 40 entries of the sorted listing are examined. */
  const DebugLimit := 40

  // ---- process_image ----

  /** What the library calls report about one photo, as the pipeline queries them. */
  datatype Detections = Detections(
    pageContours: Preparation -> seq<Contour>,   // findContours after each crop_to_page preparation
    foldLines: Rect -> Option<seq<Segment>>,     // HoughLinesP in the fold band of a rectangle
    boundingRect: seq<Point> -> Rect,            // cv2.boundingRect of a polygon
    borderContours: seq<Contour>,                // findContours in final_crop
    osd: (Box, Attempt) -> Option<Osd>,          // image_to_osd of a crop box of the trimmed image
    hough: int -> Option<seq<real>>,             // HoughLines angles after the coarse turn
    rotate: (Size, real) -> Size)                // the size PIL's rotate(angle, expand=True) gives

  /** The image crop_to_page returns. */
  function PreCropped(image: Size, crop: PageCrop): (s: Size)
    ensures s.width <= image.width && s.height <= image.height
  {
    match crop
    case Original => image
    case CropTo(box) => CropSize(image, box)
  }

  /** The image final_crop returns. */
  function Trimmed(image: Size, trim: Trim): (s: Size)
    ensures s.width <= image.width && s.height <= image.height
  {
    match trim
    case Untrimmed => image
    case TrimTo(box) => CropSize(image, box)
  }

  /** Step 3: the image is turned only for a non-zero angle. */
  function Turned(image: Size, angle: real, rotate: (Size, real) -> Size): Size
  {
    if angle != 0.0 then rotate(image, -angle) else image
  }

  /**
   * Step 4: resize to the configured width, the height scaled by imageWidth / width and
   * truncated; a zero width divides by zero.
   */
  function Resized(image: Size, imageWidth: nat): (r: Result<Size, Error>)
    ensures r.Failure? <==> image.width == 0
    ensures r.Failure? ==> r.error == ZeroDivisionError
    ensures r.Success? ==> (r.value.width == imageWidth &&
      r.value.height * image.width <= image.height * imageWidth < (r.value.height + 1) * image.width)
  {
    if image.width == 0 then Failure(ZeroDivisionError)
    else
      Success(Size(imageWidth, ScaledHeight(image.height, imageWidth, image.width)))
  }

  /** int(h * (iw / w)) over exact reals: the floor of h * iw / w. */
  function ScaledHeight(h: nat, iw: nat, w: nat): (q: nat)
    requires w > 0
    ensures q * w <= h * iw < (q + 1) * w
  {
    var wr := w as real;
    var widthPercent := iw as real / wr;
    var x := h as real * widthPercent;
    NonnegProduct(h as real, widthPercent, wr);
    ScaledBounds(h, iw, w, x, Trunc(x));
    Trunc(x)
  }

  lemma NonnegProduct(h: real, ratio: real, w: real)
    requires h >= 0.0 && w > 0.0 && ratio * w >= 0.0
    ensures h * ratio >= 0.0
  {
    assert ratio >= 0.0;
  }

  lemma ScaledBounds(h: nat, iw: nat, w: nat, x: real, q: int)
    requires w > 0 && x == h as real * (iw as real / w as real)
    requires 0.0 <= x && q as real <= x < q as real + 1.0
    ensures 0 <= q && q * w <= h * iw < (q + 1) * w
  {
    var wr := w as real;
    RatioTimes(x, h as real, iw as real, wr);
    IntProduct(h, iw);
    var n := h * iw;
    assert x * wr == n as real;
    LowerBound(q, w, x, n);
    UpperBound(q, w, x, n);
  }

  lemma LowerBound(q: int, w: nat, x: real, n: int)
    requires w > 0 && q as real <= x && x * w as real == n as real
    ensures q * w <= n
  {
    MulMonotone(q as real, x, w as real);
    IntProduct(q, w);
  }

  lemma UpperBound(q: int, w: nat, x: real, n: int)
    requires w > 0 && x < (q + 1) as real && x * w as real == n as real
    ensures n < (q + 1) * w
  {
    var q1 := q + 1;
    MulMonotone(x, q1 as real, w as real);
    IntProduct(q1, w);
  }

  lemma RatioTimes(x: real, h: real, iw: real, w: real)
    requires w > 0.0 && x == h * (iw / w)
    ensures x * w == h * iw
  {
    var ratio := iw / w;
    assert ratio * w == iw;
    calc {
      x * w;
      (h * ratio) * w;
      h * (ratio * w);
      h * iw;
    }
  }

  lemma IntProduct(a: int, b: int)
    ensures (a * b) as real == a as real * b as real
  {
  }

  lemma MulMonotone(a: real, b: real, c: real)
    requires c > 0.0
    ensures a <= b ==> a * c <= b * c
    ensures a < b ==> a * c < b * c
  {
  }

  /** process_image for a photo of the given size; the result is the size of the page image. */
  function ProcessImage(image: Size, filename: string, d: Detections, imageWidth: nat): (r: Result<Size, Error>)
    ensures r.Success? ==> r.value.width == imageWidth
    ensures CropToPage(filename, image.height, image.width, d.pageContours, d.foldLines, d.boundingRect).Failure? ==>
      r == Failure(CropToPage(filename, image.height, image.width, d.pageContours, d.foldLines, d.boundingRect).error)
  {
    match CropToPage(filename, image.height, image.width, d.pageContours, d.foldLines, d.boundingRect)
    case Failure(e) => Failure(e)
    case Success(crop) =>
      var pre := PreCropped(image, crop);
      var cropped := Trimmed(pre, TrimSpec(d.borderContours));
      var angle := TextOrientation(cropped, d.osd, d.hough);
      Resized(Turned(cropped, angle, d.rotate), imageWidth)
  }

  /** With a zero angle the trimmed image goes to the resize untouched: PIL's rotation plays no part. */
  lemma ZeroAngleNotTurned(image: Size, filename: string, d: Detections, imageWidth: nat, rotate: (Size, real) -> Size)
    requires var crop := CropToPage(filename, image.height, image.width, d.pageContours, d.foldLines, d.boundingRect);
      crop.Success? &&
      TextOrientation(Trimmed(PreCropped(image, crop.value), TrimSpec(d.borderContours)), d.osd, d.hough) == 0.0
    ensures ProcessImage(image, filename, d, imageWidth) == ProcessImage(image, filename, d.(rotate := rotate), imageWidth)
    ensures var crop := CropToPage(filename, image.height, image.width, d.pageContours, d.foldLines, d.boundingRect);
      ProcessImage(image, filename, d, imageWidth) ==
      Resized(Trimmed(PreCropped(image, crop.value), TrimSpec(d.borderContours)), imageWidth)
  {
  }

  /** A page of the trimmed, turned image is never wider than the page it came from. */
  lemma ProcessedFromCrop(image: Size, filename: string, d: Detections, imageWidth: nat)
    requires CropToPage(filename, image.height, image.width, d.pageContours, d.foldLines, d.boundingRect).Success?
    ensures var crop := CropToPage(filename, image.height, image.width, d.pageContours, d.foldLines, d.boundingRect).value;
      var cropped := Trimmed(PreCropped(image, crop), TrimSpec(d.borderContours));
      && cropped.width <= image.width && cropped.height <= image.height
      && (ProcessImage(image, filename, d, imageWidth).Failure? <==>
            Turned(cropped, TextOrientation(cropped, d.osd, d.hough), d.rotate).width == 0)
  {
  }

  // ---- images_to_pdf ----

  /** A PDF file and its pages, in order. */
  datatype Pdf = Pdf(file: string, pages: seq<Size>)

  /** images_to_pdf: the images become the pages of input_path + ".pdf"; an empty list is refused. */
  function ImagesToPdf(images: seq<Size>, path: string): (r: Result<Pdf, Error>)
    ensures r.Failure? <==> images == []
    ensures r.Failure? ==> r.error == ValueError("Image list is empty")
    ensures r.Success? ==> r.value.file == path + ".pdf" && r.value.pages == images
  {
    if images == [] then Failure(ValueError("Image list is empty"))
    else Success(Pdf(path + ".pdf", images))
  }

  // ---- the task list of main ----

  /** A task: the path of the photo and the key its page is filed under. */
  datatype Task = Task(path: string, key: string)

  /** t is the task of the directory entry `name`: a ".jpg" entry, keyed by its name minus four characters. */
  predicate FromEntry(dir: string, name: string, t: Task) {
    EndsWith(name, ".jpg") && t == Task(Join(dir, name), DropLast4(name))
  }

  function EntryTasks(dir: string, name: string): (ts: seq<Task>)
    ensures forall t :: t in ts <==> FromEntry(dir, name, t)
  {
    if EndsWith(name, ".jpg") then [Task(Join(dir, name), DropLast4(name))] else []
  }

  /** The tasks for the examined directory entries, in their order. */
  function DirectoryTasks(dir: string, names: seq<string>): seq<Task>
  {
    if names == [] then [] else DirectoryTasks(dir, names[..|names| - 1]) + EntryTasks(dir, names[|names| - 1])
  }

  /** The listing entries main examines: all of them, or in debug mode those at indices below 40. */
  function Examined(names: seq<string>, debug: bool): (e: seq<string>)
    ensures e <= names
    ensures |e| == if debug then Min(|names|, DebugLimit) else |names|
  {
    if debug && |names| > DebugLimit then names[..DebugLimit] else names
  }

  /** The input path without trailing '/', split at its extension; the save path is the last component of the root. */
  function Input(inputPath: string): string
  {
    RStrip(inputPath, '/')
  }

  function SavePath(inputPath: string): (save: string)
    ensures '/' !in save
  {
    LastComponent(SplitExt(Input(inputPath)).0)
  }

  predicate IsSingleImage(inputPath: string) {
    SplitExt(Input(inputPath)).1 == ".jpg"
  }

  /** The tasks main submits, given the directory listing os.listdir would return. */
  function PlannedTasks(inputPath: string, debug: bool, listing: seq<string>): seq<Task>
  {
    var input := Input(inputPath);
    if IsSingleImage(inputPath) then [Task(input, SavePath(inputPath))]
    else DirectoryTasks(input, Examined(StableSort(listing, StrLe), debug))
  }

  /** main's task construction. */
  method BuildTasks(inputPath: string, debug: bool, listing: seq<string>) returns (tasks: seq<Task>, savePath: string)
    ensures tasks == PlannedTasks(inputPath, debug, listing)
    ensures savePath == SavePath(inputPath)
  {
    var input := RStrip(inputPath, '/');
    var (root, ext) := SplitExt(input);
    savePath := LastComponent(root);
    if ext == ".jpg" {
      tasks := [Task(input, savePath)];
    } else {
      tasks := ListingTasks(input, StableSort(listing, StrLe), debug);
    }
  }

  /** The loop of main over the sorted listing, stopping at index 40 in debug mode. */
  method ListingTasks(dir: string, names: seq<string>, debug: bool) returns (tasks: seq<Task>)
    ensures tasks == DirectoryTasks(dir, Examined(names, debug))
  {
    tasks := [];
    var i := 0;
    while i < |names|
      invariant 0 <= i <= |names|
      invariant !debug || i <= DebugLimit
      invariant tasks == DirectoryTasks(dir, names[..i])
    {
      if debug && i >= DebugLimit {
        break;
      }
      var filename := names[i];
      DirectoryTasksStep(dir, names, i);
      if EndsWith(filename, ".jpg") {
        tasks := tasks + [Task(Join(dir, filename), DropLast4(filename))];
      }
      i := i + 1;
    }
    assert names[..i] == Examined(names, debug);
  }

  lemma DirectoryTasksStep(dir: string, names: seq<string>, i: nat)
    requires i < |names|
    ensures DirectoryTasks(dir, names[..i + 1]) == DirectoryTasks(dir, names[..i]) + EntryTasks(dir, names[i])
  {
    assert names[..i + 1][..i] == names[..i];
  }

  /** A ".jpg" input path is one task, keyed by its file name without the extension. */
  lemma SingleImageTask(inputPath: string, debug: bool, listing: seq<string>)
    requires IsSingleImage(inputPath)
    ensures var input := Input(inputPath);
      && EndsWith(input, ".jpg")
      && PlannedTasks(inputPath, debug, listing) == [Task(input, SavePath(inputPath))]
      && SavePath(inputPath) == LastComponent(input[..|input| - 4])
      && '/' !in SavePath(inputPath)
  {
    JpgExtensionEndsWith(Input(inputPath));
  }

  /** A photo "scans/book1.jpg/" is filed under "book1" and its PDF is output/book1.pdf. */
  lemma SingleImageExample()
    ensures IsSingleImage("scans/book1.jpg/")
    ensures SavePath("scans/book1.jpg/") == "book1"
  {
    var path, input, root := "scans/book1.jpg/", "scans/book1.jpg", "scans/book1";
    RStripOne(path, '/');
    assert path[..|path| - 1] == input;
    JpgExtension(input);
    assert input[..|input| - 4] == root;
    LastComponentAfter(root, 5);
    assert root[6..] == "book1";
  }

  /** A task is planned for a directory exactly when some listed entry gives rise to it. */
  lemma {:induction false} DirectoryTasksIff(dir: string, names: seq<string>, t: Task)
    ensures t in DirectoryTasks(dir, names) <==> exists name <- names :: FromEntry(dir, name, t)
  {
    if names != [] {
      var init := names[..|names| - 1];
      var last := names[|names| - 1];
      DirectoryTasksIff(dir, init, t);
      assert names == init + [last];
      assert t in DirectoryTasks(dir, names) <==> t in DirectoryTasks(dir, init) || FromEntry(dir, last, t);
    }
  }

  /**
   * Every task of a directory opens a ".jpg" entry of it: with entries that are plain
   * names, the task's path ends in the entry and its key is the entry without ".jpg".
   */
  lemma DirectoryTaskOfEntry(dir: string, names: seq<string>, t: Task)
    requires forall name <- names :: '/' !in name
    requires t in DirectoryTasks(dir, names)
    ensures exists name <- names ::
      && EndsWith(name, ".jpg")
      && LastComponent(t.path) == name
      && t.key + ".jpg" == name
  {
    DirectoryTasksIff(dir, names, t);
    var name :| name in names && FromEntry(dir, name, t);
    JoinLastComponent(dir, name);
    DropJpg(name, name);
  }

  /** Tasks follow the order of the entries they come from. */
  lemma {:induction false} DirectoryTasksAppend(dir: string, a: seq<string>, b: seq<string>)
    ensures DirectoryTasks(dir, a + b) == DirectoryTasks(dir, a) + DirectoryTasks(dir, b)
  {
    InitOfConcat(a, b);
    if b != [] {
      var init, last := b[..|b| - 1], b[|b| - 1];
      calc {
        DirectoryTasks(dir, a + b);
        DirectoryTasks(dir, a + init) + EntryTasks(dir, last);
        { DirectoryTasksAppend(dir, a, init); }
        (DirectoryTasks(dir, a) + DirectoryTasks(dir, init)) + EntryTasks(dir, last);
        { ConcatAssociative(DirectoryTasks(dir, a), DirectoryTasks(dir, init), EntryTasks(dir, last)); }
        DirectoryTasks(dir, a) + (DirectoryTasks(dir, init) + EntryTasks(dir, last));
        DirectoryTasks(dir, a) + DirectoryTasks(dir, b);
      }
    }
  }

  lemma InitOfConcat<T>(a: seq<T>, b: seq<T>)
    ensures b == [] ==> a + b == a
    ensures b != [] ==> (a + b)[..|a + b| - 1] == a + b[..|b| - 1] && (a + b)[|a + b| - 1] == b[|b| - 1]
  {
    if b == [] {
      assert a + b == a;
    } else {
      assert (a + b)[..|a + b| - 1] == a + b[..|b| - 1];
    }
  }

  /**
   * For a directory, a task comes from each ".jpg" entry of the sorted listing, at an index
   * below 40 in debug mode, whatever the entries before it are.
   */
  lemma DirectoryPlan(inputPath: string, debug: bool, listing: seq<string>, t: Task)
    requires !IsSingleImage(inputPath)
    ensures var names := StableSort(listing, StrLe);
      t in PlannedTasks(inputPath, debug, listing) <==>
        exists i :: 0 <= i < |names| && (!debug || i < DebugLimit) && FromEntry(Input(inputPath), names[i], t)
    ensures debug ==> |PlannedTasks(inputPath, debug, listing)| <= DebugLimit
  {
    var names := StableSort(listing, StrLe);
    var e := Examined(names, debug);
    DirectoryTasksIff(Input(inputPath), e, t);
    DirectoryTasksLength(Input(inputPath), e);
  }

  lemma {:induction false} DirectoryTasksLength(dir: string, names: seq<string>)
    ensures |DirectoryTasks(dir, names)| <= |names|
  {
    if names != [] {
      DirectoryTasksLength(dir, names[..|names| - 1]);
    }
  }

  /** Two tasks with the same key are the same task, so a key names one photo. */
  lemma KeyDeterminesTask(inputPath: string, debug: bool, listing: seq<string>, t: Task, u: Task)
    requires t in PlannedTasks(inputPath, debug, listing) && u in PlannedTasks(inputPath, debug, listing)
    requires t.key == u.key
    ensures t == u
  {
    if !IsSingleImage(inputPath) {
      var names := Examined(StableSort(listing, StrLe), debug);
      var dir := Input(inputPath);
      DirectoryTasksIff(dir, names, t);
      DirectoryTasksIff(dir, names, u);
      var i :| 0 <= i < |names| && FromEntry(dir, names[i], t);
      var j :| 0 <= j < |names| && FromEntry(dir, names[j], u);
      DropJpg(names[i], names[j]);
    }
  }

  // ---- collecting the results ----

  /** How a submitted task ended: its page image and key, or an exception. */
  datatype Completion = Done(image: Size, key: string) | Failed(key: string)

  datatype Page = Page(image: Size, key: string)

  /** images.sort(key=lambda x: x[1]). */
  predicate KeyLe(a: Page, b: Page) {
    StrLe(a.key, b.key)
  }

  lemma KeyLeIsTotalPreorder()
    ensures TotalPreorder(KeyLe)
  {
    StrLeIsTotalPreorder();
  }

  /** The (image, filename) pairs appended in completion order; failed tasks add nothing. */
  function Successes(completed: seq<Completion>): seq<Page>
  {
    if completed == [] then []
    else
      var prev := Successes(completed[..|completed| - 1]);
      match completed[|completed| - 1]
      case Done(image, key) => prev + [Page(image, key)]
      case Failed(_) => prev
  }

  function CollectedPages(completed: seq<Completion>): seq<Page>
  {
    StableSort(Successes(completed), KeyLe)
  }

  /** Collecting the completed futures, then sorting the pages by key. */
  method CollectPages(completed: seq<Completion>) returns (images: seq<Page>)
    ensures images == CollectedPages(completed)
  {
    images := [];
    for k := 0 to |completed|
      invariant images == Successes(completed[..k])
    {
      assert completed[..k + 1][..k] == completed[..k];
      match completed[k]
      case Done(image, key) =>
        images := images + [Page(image, key)];
      case Failed(_) =>
    }
    assert completed[..|completed|] == completed;
    images := StableSort(images, KeyLe);
  }

  lemma {:induction false} SuccessesCount(completed: seq<Completion>, p: Page)
    ensures multiset(Successes(completed))[p] == multiset(completed)[Done(p.image, p.key)]
  {
    if completed != [] {
      var init := completed[..|completed| - 1];
      SuccessesCount(init, p);
      assert completed == init + [completed[|completed| - 1]];
    }
  }

  /** The collected pages, sorted by key, are exactly the successful completions. */
  lemma CollectedSortedSuccesses(completed: seq<Completion>)
    ensures var pages := CollectedPages(completed);
      && (forall i, j :: 0 <= i < j < |pages| ==> StrLe(pages[i].key, pages[j].key))
      && (forall p :: p in pages <==> Done(p.image, p.key) in completed)
  {
    KeyLeIsTotalPreorder();
    SortSorted(Successes(completed), KeyLe);
    var pages := CollectedPages(completed);
    forall p ensures p in pages <==> Done(p.image, p.key) in completed {
      SuccessesCount(completed, p);
      assert p in pages <==> p in multiset(Successes(completed));
    }
  }

  /**
   * When a key names one page, the sorted pages do not depend on the order in which the
   * tasks completed.
   */
  lemma CompletionOrderIrrelevant(c1: seq<Completion>, c2: seq<Completion>)
    requires multiset(c1) == multiset(c2)
    requires forall x, y :: x in c1 && y in c1 && x.Done? && y.Done? && x.key == y.key ==> x == y
    ensures CollectedPages(c1) == CollectedPages(c2)
  {
    forall p ensures multiset(Successes(c1))[p] == multiset(Successes(c2))[p] {
      SuccessesCount(c1, p);
      SuccessesCount(c2, p);
    }
    assert multiset(Successes(c1)) == multiset(Successes(c2));
    KeyLeIsTotalPreorder();
    SortSorted(Successes(c1), KeyLe);
    SortSorted(Successes(c2), KeyLe);
    var a := CollectedPages(c1);
    forall x, y | x in a && y in a && Tied(x, y, KeyLe) ensures x == y {
      CollectedSortedSuccesses(c1);
      StrLeAntisymmetric(x.key, y.key);
      assert Done(x.image, x.key) == Done(y.image, y.key);
    }
    SortedUnique(a, CollectedPages(c2), KeyLe);
  }

  function Images(pages: seq<Page>): (images: seq<Size>)
    ensures |images| == |pages| && forall i :: 0 <= i < |pages| ==> images[i] == pages[i].image
  {
    seq(|pages|, i requires 0 <= i < |pages| => pages[i].image)
  }

  // ---- main ----

  /** async_process_image: open the photo (None when that raises) and process it; any exception fails the task. */
  function RunTask(t: Task, open: string -> Option<Size>, detect: string -> Detections, imageWidth: nat): (c: Completion)
    ensures c.key == t.key
  {
    match open(t.path)
    case None => Failed(t.key)
    case Some(image) =>
      match ProcessImage(image, t.key, detect(t.path), imageWidth)
      case Success(page) => Done(page, t.key)
      case Failure(_) => Failed(t.key)
  }

  function Runner(open: string -> Option<Size>, detect: string -> Detections, imageWidth: nat): Task -> Completion
  {
    t => RunTask(t, open, detect, imageWidth)
  }

  /** How the tasks end, in the order given. */
  function Completions(order: seq<Task>, open: string -> Option<Size>, detect: string -> Detections, imageWidth: nat)
    : seq<Completion>
  {
    Map(order, Runner(open, detect, imageWidth))
  }

  /** Tasks that share a key complete identically, whatever order they complete in. */
  lemma CompletionsKeyed(inputPath: string, debug: bool, listing: seq<string>, order: seq<Task>,
                         open: string -> Option<Size>, detect: string -> Detections, imageWidth: nat)
    requires multiset(order) == multiset(PlannedTasks(inputPath, debug, listing))
    ensures var completed := Completions(order, open, detect, imageWidth);
      forall x, y :: x in completed && y in completed && x.Done? && y.Done? && x.key == y.key ==> x == y
  {
    var completed := Completions(order, open, detect, imageWidth);
    var run := Runner(open, detect, imageWidth);
    forall x, y | x in completed && y in completed && x.Done? && y.Done? && x.key == y.key ensures x == y {
      var i :| 0 <= i < |order| && completed[i] == x;
      var j :| 0 <= j < |order| && completed[j] == y;
      assert x == run(order[i]) && y == run(order[j]);
      assert order[i] in multiset(order) && order[j] in multiset(order);
      KeyDeterminesTask(inputPath, debug, listing, order[i], order[j]);
    }
  }

  /** The pages collected from any completion order of the planned tasks are those of the planned order. */
  lemma AnyCompletionOrder(inputPath: string, debug: bool, listing: seq<string>, order: seq<Task>,
                           open: string -> Option<Size>, detect: string -> Detections, imageWidth: nat)
    requires multiset(order) == multiset(PlannedTasks(inputPath, debug, listing))
    ensures CollectedPages(Completions(order, open, detect, imageWidth)) ==
            CollectedPages(Completions(PlannedTasks(inputPath, debug, listing), open, detect, imageWidth))
  {
    var tasks := PlannedTasks(inputPath, debug, listing);
    MapPermutation(order, tasks, Runner(open, detect, imageWidth));
    CompletionsKeyed(inputPath, debug, listing, order, open, detect, imageWidth);
    CompletionOrderIrrelevant(Completions(order, open, detect, imageWidth), Completions(tasks, open, detect, imageWidth));
  }

  /** Collecting the results of the futures, in the order given. */
  method RunTasks(order: seq<Task>, run: Task -> Completion) returns (completed: seq<Completion>)
    ensures completed == Map(order, run)
  {
    completed := [];
    for k := 0 to |order|
      invariant |completed| == k
      invariant forall i :: 0 <= i < k ==> completed[i] == run(order[i])
    {
      completed := completed + [run(order[k])];
    }
    MapIndexwise(order, run, completed);
  }

  /**
   * main: build the tasks, run them in the order `finish` puts them (the order in which
   * the pool completes them, any reordering), sort the pages by key and write
   * output/<save path>.pdf.
   */
  method ConvertScans(inputPath: string, debug: bool, listing: seq<string>, open: string -> Option<Size>,
                      detect: string -> Detections, imageWidth: nat, finish: seq<Task> -> seq<Task>)
    returns (r: Result<Pdf, Error>)
    requires forall ts :: multiset(finish(ts)) == multiset(ts)
    ensures var pages := CollectedPages(Completions(PlannedTasks(inputPath, debug, listing), open, detect, imageWidth));
      r == ImagesToPdf(Images(pages), "output/" + SavePath(inputPath))
  {
    var tasks, savePath := BuildTasks(inputPath, debug, listing);
    var order := finish(tasks);
    var completed := RunTasks(order, Runner(open, detect, imageWidth));
    var images := CollectPages(completed);
    AnyCompletionOrder(inputPath, debug, listing, order, open, detect, imageWidth);
    r := ImagesToPdf(Images(images), "output/" + savePath);
  }

  /** No page is collected exactly when every task failed. */
  lemma NoPagesIff(completed: seq<Completion>)
    ensures CollectedPages(completed) == [] <==> forall c <- completed :: c.Failed?
  {
    CollectedSortedSuccesses(completed);
    var pages := CollectedPages(completed);
    if pages != [] {
      assert pages[0] in pages;
    }
    if c :| c in completed && c.Done? {
      assert Page(c.image, c.key) in pages;
    }
  }

  /** Each completion is the outcome of one of the tasks. */
  lemma CompletionOfTask(tasks: seq<Task>, open: string -> Option<Size>, detect: string -> Detections, imageWidth: nat,
                         c: Completion)
    requires c in Completions(tasks, open, detect, imageWidth)
    ensures exists t <- tasks :: c == RunTask(t, open, detect, imageWidth)
  {
    var completed := Completions(tasks, open, detect, imageWidth);
    var i :| 0 <= i < |completed| && completed[i] == c;
    assert c == Runner(open, detect, imageWidth)(tasks[i]);
    assert tasks[i] in tasks;
  }

  /** A completed task's page has the configured width. */
  lemma DoneWidth(t: Task, open: string -> Option<Size>, detect: string -> Detections, imageWidth: nat)
    ensures RunTask(t, open, detect, imageWidth).Done? ==> RunTask(t, open, detect, imageWidth).image.width == imageWidth
  {
  }

  /** Every task failed exactly when every completion is a failure. */
  lemma AllFailedIff(tasks: seq<Task>, open: string -> Option<Size>, detect: string -> Detections, imageWidth: nat)
    ensures (forall c <- Completions(tasks, open, detect, imageWidth) :: c.Failed?) <==>
            (forall t <- tasks :: RunTask(t, open, detect, imageWidth).Failed?)
  {
    var completed := Completions(tasks, open, detect, imageWidth);
    forall c | c in completed ensures exists t <- tasks :: c == RunTask(t, open, detect, imageWidth) {
      CompletionOfTask(tasks, open, detect, imageWidth, c);
    }
    forall t | t in tasks ensures RunTask(t, open, detect, imageWidth) in completed {
      var i :| 0 <= i < |tasks| && tasks[i] == t;
      assert completed[i] == Runner(open, detect, imageWidth)(t);
    }
  }

  /** Every collected page has the configured width. */
  lemma PagesWidth(tasks: seq<Task>, open: string -> Option<Size>, detect: string -> Detections, imageWidth: nat)
    ensures forall p <- CollectedPages(Completions(tasks, open, detect, imageWidth)) :: p.image.width == imageWidth
  {
    var completed := Completions(tasks, open, detect, imageWidth);
    CollectedSortedSuccesses(completed);
    forall p | p in CollectedPages(completed) ensures p.image.width == imageWidth {
      CompletionOfTask(tasks, open, detect, imageWidth, Done(p.image, p.key));
      var t :| t in tasks && Done(p.image, p.key) == RunTask(t, open, detect, imageWidth);
      DoneWidth(t, open, detect, imageWidth);
    }
  }

  /** The run fails exactly when no photo was processed; otherwise every page has the configured width. */
  lemma ConvertOutcome(inputPath: string, debug: bool, listing: seq<string>, open: string -> Option<Size>,
                       detect: string -> Detections, imageWidth: nat)
    ensures var tasks := PlannedTasks(inputPath, debug, listing);
      var r := ImagesToPdf(Images(CollectedPages(Completions(tasks, open, detect, imageWidth))), "output/" + SavePath(inputPath));
      && (r.Failure? <==> forall t <- tasks :: RunTask(t, open, detect, imageWidth).Failed?)
      && (r.Success? ==> r.value.file == "output/" + SavePath(inputPath) + ".pdf")
      && (r.Success? ==> forall page <- r.value.pages :: page.width == imageWidth)
  {
    var tasks := PlannedTasks(inputPath, debug, listing);
    var pages := CollectedPages(Completions(tasks, open, detect, imageWidth));
    NoPagesIff(Completions(tasks, open, detect, imageWidth));
    AllFailedIff(tasks, open, detect, imageWidth);
    PagesWidth(tasks, open, detect, imageWidth);
    forall page | page in Images(pages) ensures page.width == imageWidth {
      var i :| 0 <= i < |pages| && Images(pages)[i] == page;
      assert pages[i] in pages;
    }
  }
}
