/** The images of an auction: creating the set, editing it, and the uploaded files behind it. */
module Images {
  import opened Wrappers
  import opened RedisKeys
  import opened Auctions
  import opened Operations
  import ListCache

  datatype Image = Image(id: nat, url: string, isPrimary: bool)

  /** An auction, its image rows, the uploaded files by URL, and the next free row id. */
  datatype Gallery = Gallery(auction: Auction, images: seq<Image>, files: set<string>, nextId: nat)

  datatype ImageError =
    | ImageRefused(reason: Refusal)
    | NoImagesProvided
    | InvalidExistingUrls
    | TooManyImages
    | PrimaryIndexOutOfRange
    | UpdateFailed
    | CreationFailed

  /**
   One request to change the images. `uploads` are the URLs its new files will get. The database
   transaction goes through when `commits`; deleting a file in `undeletable` silently fails.
   */
  datatype Edit = Edit(
    user: int,
    uploads: seq<string>,
    existingUrls: seq<string>,
    primaryIndex: Option<nat>,
    commits: bool,
    undeletable: set<string>)

  const MAX_IMAGES := 10

  // --- The pieces ---

  function Kept(images: seq<Image>, urls: seq<string>): seq<Image> {
    if images == [] then []
    else (if images[0].url in urls then [images[0]] else []) + Kept(images[1..], urls)
  }

  function Dropped(images: seq<Image>, urls: seq<string>): seq<Image> {
    if images == [] then []
    else (if images[0].url in urls then [] else [images[0]]) + Dropped(images[1..], urls)
  }

  function Urls(images: seq<Image>): (urls: seq<string>)
    ensures |urls| == |images| && forall i :: 0 <= i < |images| ==> urls[i] == images[i].url
  {
    seq(|images|, i requires 0 <= i < |images| => images[i].url)
  }

  function UrlSet(images: seq<Image>): set<string> {
    set i | 0 <= i < |images| :: images[i].url
  }

  function ToSet(urls: seq<string>): set<string> {
    set url | url in urls
  }

  /** The position of the first occurrence of `url`, or the length when there is none. */
  function IndexOf(urls: seq<string>, url: string): (k: nat)
    ensures k <= |urls|
    ensures k < |urls| ==> urls[k] == url
    ensures forall i :: 0 <= i < k ==> urls[i] != url
  {
    if urls == [] || urls[0] == url then 0 else 1 + IndexOf(urls[1..], url)
  }

  /** The rows as they are saved: kept ones with their flag corrected, then one for each upload. */
  function Marked(kept: seq<Image>, uploads: seq<string>, primary: nat, nextId: nat): (images: seq<Image>)
    ensures |images| == |kept| + |uploads|
  {
    var all := Urls(kept) + uploads;
    seq(|kept| + |uploads|, i requires 0 <= i < |kept| + |uploads| =>
      Image(if i < |kept| then kept[i].id else nextId + i - |kept|, all[i], IndexOf(all, all[i]) == primary))
  }

  function EditRefusal(g: Gallery, e: Edit): Option<ImageError> {
    var a := g.auction;
    if a.row.None? then Some(ImageRefused(NotFound))
    else if a.row.value.ownerId != e.user then Some(ImageRefused(NotOwner))
    else if !Open(a.row.value.status) then Some(ImageRefused(NotOpen))
    else if a.row.value.status == Active && a.bids != [] then Some(ImageRefused(HasBids))
    else if e.uploads == [] && e.existingUrls == [] then Some(NoImagesProvided)
    else if exists i :: 0 <= i < |e.existingUrls| && e.existingUrls[i] !in Urls(g.images) then Some(InvalidExistingUrls)
    else if |Kept(g.images, e.existingUrls)| + |e.uploads| > MAX_IMAGES then Some(TooManyImages)
    else None
  }

  function WithMainUrl(a: Auction, url: string): Auction
    requires a.row.Some?
  {
    a.(row := Some(a.row.value.(details := a.row.value.details.(mainImageUrl := url))))
  }

  function UpdateImages(g: Gallery, e: Edit): (Gallery, Option<ImageError>) {
    var refusal := EditRefusal(g, e);
    if refusal.Some? then (g, refusal)
    else
      var kept := Kept(g.images, e.existingUrls);
      var all := Urls(kept) + e.uploads;
      var primary := e.primaryIndex.GetOr(0);
      var uploaded := g.(files := g.files + ToSet(e.uploads));
      if primary >= |all| then (uploaded, Some(PrimaryIndexOutOfRange))
      else if !e.commits then
        (g.(files := uploaded.files - (ToSet(e.uploads) - e.undeletable)), Some(UpdateFailed))
      else
        var dropped := UrlSet(Dropped(g.images, e.existingUrls));
        (g.(auction := WithMainUrl(g.auction, all[primary]),
            images := Marked(kept, e.uploads, primary, g.nextId),
            files := uploaded.files - (dropped - e.undeletable),
            nextId := g.nextId + |e.uploads|), None)
  }

  // --- Creating the set ---

  /** What the owner sends to open an auction; the images have been uploaded before. */
  datatype NewListing = NewListing(
    startingPrice: int,
    startTime: Option<int>,
    endTime: int,
    title: string,
    description: string,
    category: Option<string>,
    imageUrls: seq<string>,
    primaryImageIndex: Option<nat>)

  predicate Digits(s: string) {
    forall i :: 0 <= i < |s| ==> '0' <= s[i] <= '9'
  }

  predicate PathChar(c: char) {
    'A' <= c <= 'Z' || 'a' <= c <= 'z' || '0' <= c <= '9' || c in "_-/."
  }

  function Lower(s: string): (lower: string)
    ensures |lower| == |s|
  {
    seq(|s|, i requires 0 <= i < |s| => if 'A' <= s[i] <= 'Z' then s[i] - 'A' + 'a' else s[i])
  }

  /** `url` is `front`, an extension in upper or lower case, and nothing else. */
  predicate EndsIn(url: string, front: nat, extension: string) {
    front + |extension| == |url| && Lower(url)[front..] == extension
  }

  /** A year, a month, a path and the extension of an image. */
  predicate AcceptedUrl(url: string) {
    && |url| >= 8 && Digits(url[..4]) && url[4] == '/' && Digits(url[5..7]) && url[7] == '/'
    && exists front :: 8 < front < |url|
         && (forall i :: 8 <= i < front ==> PathChar(url[i]))
         && (EndsIn(url, front, ".jpg") || EndsIn(url, front, ".jpeg") || EndsIn(url, front, ".png"))
  }

  /** What request validation lets through. */
  predicate ValidListing(l: NewListing, now: int) {
    && 1 <= |l.imageUrls| <= MAX_IMAGES && ValidNewAuction(RequestOf(l, ""), now)
    && forall url :: url in l.imageUrls ==> AcceptedUrl(url)
  }

  function NewImages(urls: seq<string>, primary: nat, nextId: nat): (images: seq<Image>)
    ensures |images| == |urls|
  {
    seq(|urls|, i requires 0 <= i < |urls| => Image(nextId + i, urls[i], i == primary))
  }

  function RequestOf(l: NewListing, mainImageUrl: string): NewAuction {
    NewAuction(l.startingPrice, l.startTime, l.endTime,
               Details(l.title, l.description, l.category.GetOr("other"), mainImageUrl))
  }

  /** Opening an auction where there is none yet: its row, its images and its start job, or nothing at all. */
  function CreateListing(files: set<string>, nextId: nat, now: int, owner: int, l: NewListing, queueUp: bool)
    : (Gallery, Option<ImageError>)
  {
    var nothing := Gallery(NO_AUCTION, [], files, nextId);
    var primary := l.primaryImageIndex.GetOr(0);
    if !ValidListing(l, now) then (nothing, Some(ImageRefused(Invalid)))
    else if primary >= |l.imageUrls| then (nothing, Some(PrimaryIndexOutOfRange))
    else if !queueUp then (nothing, Some(CreationFailed))
    else
      (Gallery(Create(NO_AUCTION, now, owner, RequestOf(l, l.imageUrls[primary]), queueUp),
               NewImages(l.imageUrls, primary, nextId), files, nextId + |l.imageUrls|), None)
  }

  // --- What holds of a set of images ---

  ghost predicate PrimaryAt(images: seq<Image>, k: int) {
    0 <= k < |images| && forall i :: 0 <= i < |images| ==> (images[i].isPrimary <==> i == k)
  }

  ghost predicate ExactlyOnePrimary(images: seq<Image>) {
    exists k :: PrimaryAt(images, k)
  }

  ghost predicate OccursOnce(urls: seq<string>, k: nat)
    requires k < |urls|
  {
    forall i :: 0 <= i < |urls| && urls[i] == urls[k] ==> i == k
  }

  predicate Distinct(urls: seq<string>) {
    forall i, j :: 0 <= i < j < |urls| ==> urls[i] != urls[j]
  }

  predicate UniqueIds(images: seq<Image>, nextId: nat) {
    && (forall i :: 0 <= i < |images| ==> images[i].id < nextId)
    && (forall i, j :: 0 <= i < j < |images| ==> images[i].id != images[j].id)
  }

  /** 1 to 10 images at different URLs, exactly one of them primary, the auction showing that one. */
  ghost predicate GalleryOk(g: Gallery) {
    && 1 <= |g.images| <= MAX_IMAGES
    && Distinct(Urls(g.images))
    && UniqueIds(g.images, g.nextId)
    && g.auction.row.Some?
    && exists k :: PrimaryAt(g.images, k) && g.auction.row.value.details.mainImageUrl == g.images[k].url
  }

  /** The edit goes through with exactly one primary image when, and only when, the chosen URL occurs once. */
  lemma OnePrimaryExactly(kept: seq<Image>, uploads: seq<string>, primary: nat, nextId: nat)
    requires primary < |kept| + |uploads|
    ensures ExactlyOnePrimary(Marked(kept, uploads, primary, nextId)) <==> OccursOnce(Urls(kept) + uploads, primary)
    ensures OccursOnce(Urls(kept) + uploads, primary) ==> PrimaryAt(Marked(kept, uploads, primary, nextId), primary)
  {
    var all := Urls(kept) + uploads;
    var images := Marked(kept, uploads, primary, nextId);
    assert forall i :: 0 <= i < |images| ==> (images[i].isPrimary <==> IndexOf(all, all[i]) == primary);
    if OccursOnce(all, primary) {
      assert IndexOf(all, all[primary]) == primary;
      assert PrimaryAt(images, primary);
    }
    if ExactlyOnePrimary(images) {
      var k :| PrimaryAt(images, k);
      assert images[k].isPrimary;
      assert all[k] == all[primary];
      forall i | 0 <= i < |all| && all[i] == all[primary]
        ensures i == primary
      {
        assert images[i].isPrimary && images[primary].isPrimary;
      }
    }
  }

  lemma BothKept(images: seq<Image>, url: string)
    requires |images| == 2 && images[0].url == url && images[1].url == url
    ensures Kept(images, [url]) == images
  {
    assert images[1..] == [images[1]] && [images[1]][1..] == [];
    assert Kept([], [url]) == [];
    assert Kept([images[1]], [url]) == [images[1]] + Kept([], [url]);
  }

  /** An auction opened with one URL twice is left without any primary image when its owner keeps both and picks the second. */
  lemma DuplicatesLoseThePrimary(files: set<string>, nextId: nat, now: int, owner: int, l: NewListing, url: string)
    requires ValidListing(l, now) && l.imageUrls == [url, url] && l.primaryImageIndex.GetOr(0) < 2
    ensures var (g, refusal) := CreateListing(files, nextId, now, owner, l, true);
            var (h, failure) := UpdateImages(g, Edit(owner, [], [url], Some(1), true, {}));
            && refusal.None? && ExactlyOnePrimary(g.images)
            && failure.None? && |h.images| == 2 && !ExactlyOnePrimary(h.images)
  {
    var g := CreateListing(files, nextId, now, owner, l, true).0;
    assert PrimaryAt(g.images, l.primaryImageIndex.GetOr(0));
    var kept := Kept(g.images, [url]);
    BothKept(g.images, url);
    OnePrimaryExactly(kept, [], 1, g.nextId);
    assert (Urls(kept) + [])[0] == (Urls(kept) + [])[1];
    assert EditRefusal(g, Edit(owner, [], [url], Some(1), true, {})).None? by {
      assert Urls(g.images)[0] == url;
    }
  }

  const SOME_URL := "2026/03/a.jpg"

  /** Request validation lets such a listing through. */
  lemma DuplicatesAreValid(now: int)
    ensures ValidListing(NewListing(1, None, now + 2 * HOUR_MS, "", "", None, [SOME_URL, SOME_URL], None), now)
  {
    SomeUrlAccepted();
  }

  lemma SomeUrlAccepted()
    ensures AcceptedUrl(SOME_URL)
  {
    var url := SOME_URL;
    assert |url| == 13 && url[9] == '.' && url[10] == 'j' && url[11] == 'p' && url[12] == 'g';
    assert EndsIn(url, 9, ".jpg");
    assert PathChar(url[8]);
  }

  /** Kept and dropped images partition the old ones by whether their URL was listed. */
  lemma {:induction false} KeptAndDroppedPartition(images: seq<Image>, urls: seq<string>)
    ensures multiset(images) == multiset(Kept(images, urls)) + multiset(Dropped(images, urls))
    ensures forall image :: image in Kept(images, urls) <==> image in images && image.url in urls
    ensures forall image :: image in Dropped(images, urls) <==> image in images && image.url !in urls
  {
    if images == [] {
    } else {
      KeptAndDroppedPartition(images[1..], urls);
      assert images == [images[0]] + images[1..];
    }
  }

  /** Every kept image stands somewhere in the old set. */
  lemma KeptAmong(images: seq<Image>, urls: seq<string>, i: nat) returns (j: nat)
    requires i < |Kept(images, urls)|
    ensures j < |images| && images[j] == Kept(images, urls)[i]
  {
    KeptAndDroppedPartition(images, urls);
    assert Kept(images, urls)[i] in Kept(images, urls);
    j :| 0 <= j < |images| && images[j] == Kept(images, urls)[i];
  }

  lemma {:induction false} KeptUrlsDistinct(images: seq<Image>, urls: seq<string>)
    requires Distinct(Urls(images))
    ensures Distinct(Urls(Kept(images, urls)))
  {
    if images == [] {
    } else {
      var rest := Kept(images[1..], urls);
      assert Urls(images[1..]) == Urls(images)[1..];
      KeptUrlsDistinct(images[1..], urls);
      forall i | 0 <= i < |rest|
        ensures rest[i].url != images[0].url
      {
        var j := KeptAmong(images[1..], urls, i);
        assert Urls(images)[j + 1] == rest[i].url;
      }
      assert Urls([images[0]] + rest) == [images[0].url] + Urls(rest);
    }
  }

  lemma {:induction false} KeptIdsUnique(images: seq<Image>, urls: seq<string>, nextId: nat)
    requires UniqueIds(images, nextId)
    ensures UniqueIds(Kept(images, urls), nextId)
  {
    if images == [] {
    } else {
      var rest := Kept(images[1..], urls);
      KeptIdsUnique(images[1..], urls, nextId);
      forall i | 0 <= i < |rest|
        ensures rest[i].id != images[0].id
      {
        var j := KeptAmong(images[1..], urls, i);
        assert images[j + 1] == rest[i];
      }
    }
  }

  lemma KeptUrlsAmong(images: seq<Image>, urls: seq<string>, url: string)
    requires url in Urls(Kept(images, urls))
    ensures url in Urls(images)
  {
    var i :| 0 <= i < |Kept(images, urls)| && Urls(Kept(images, urls))[i] == url;
    var j := KeptAmong(images, urls, i);
    assert Urls(images)[j] == url;
  }

  // --- Which URLs are accepted ---

  predicate IsExtension(extension: string) {
    Lower(extension) == ".jpg" || Lower(extension) == ".jpeg" || Lower(extension) == ".png"
  }

  /** Four digits, two digits, a path of letters, digits and `_-/.`, and the extension of an image in any case. */
  predicate MadeOf(url: string, year: string, month: string, path: string, extension: string) {
    && url == year + "/" + month + "/" + path + extension
    && |year| == 4 && Digits(year) && |month| == 2 && Digits(month)
    && path != "" && (forall i :: 0 <= i < |path| ==> PathChar(path[i])) && IsExtension(extension)
  }

  ghost predicate WellFormed(url: string) {
    exists year, month, path, extension :: MadeOf(url, year, month, path, extension)
  }

  lemma AcceptedUrlExactly(url: string)
    ensures AcceptedUrl(url) <==> WellFormed(url)
  {
    if AcceptedUrl(url) { AcceptedIsWellFormed(url); }
    if WellFormed(url) {
      var year, month, path, extension :| MadeOf(url, year, month, path, extension);
      WellFormedIsAccepted(url, year, month, path, extension);
    }
  }

  lemma LowerTail(url: string, front: nat)
    requires front <= |url|
    ensures Lower(url)[front..] == Lower(url[front..])
  {
  }

  lemma AcceptedIsWellFormed(url: string)
    requires AcceptedUrl(url)
    ensures WellFormed(url)
  {
    var front :| && 8 < front < |url| && (forall i :: 8 <= i < front ==> PathChar(url[i]))
                 && (EndsIn(url, front, ".jpg") || EndsIn(url, front, ".jpeg") || EndsIn(url, front, ".png"));
    LowerTail(url, front);
    assert url == url[..4] + "/" + url[5..7] + "/" + url[8..front] + url[front..];
    assert MadeOf(url, url[..4], url[5..7], url[8..front], url[front..]);
  }

  lemma WellFormedIsAccepted(url: string, year: string, month: string, path: string, extension: string)
    requires MadeOf(url, year, month, path, extension)
    ensures AcceptedUrl(url)
  {
    var front := 8 + |path|;
    assert url[..4] == year && url[5..7] == month && url[front..] == extension;
    LowerTail(url, front);
    assert EndsIn(url, front, Lower(extension));
    assert |path| > 0 && |extension| == |Lower(extension)| && |Lower(extension)| > 0;
    assert EndsIn(url, front, ".jpg") || EndsIn(url, front, ".jpeg") || EndsIn(url, front, ".png");
    forall i | 8 <= i < front ensures PathChar(url[i]) { assert url[i] == path[i - 8]; }
  }

  // --- Who may edit, and what an edit does ---

  /** The owner edits the images of a PENDING auction, or of an ACTIVE one without bids, keeps only what is there, and ends up with 1 to 10. */
  predicate MayEdit(g: Gallery, e: Edit) {
    && g.auction.row.Some? && g.auction.row.value.ownerId == e.user
    && (g.auction.row.value.status == Pending || (g.auction.row.value.status == Active && g.auction.bids == []))
    && (forall url :: url in e.existingUrls ==> exists image :: image in g.images && image.url == url)
    && |e.uploads| + |e.existingUrls| > 0
    && |Kept(g.images, e.existingUrls)| + |e.uploads| <= 10
  }

  /** The image asked for as primary, the first by default, is one of those there will be. */
  predicate IndexInRange(g: Gallery, e: Edit) {
    (if e.primaryIndex.Some? then e.primaryIndex.value else 0) < |Kept(g.images, e.existingUrls)| + |e.uploads|
  }

  lemma UrlsAreThere(images: seq<Image>, url: string)
    ensures url in Urls(images) <==> exists image :: image in images && image.url == url
  {
    if url in Urls(images) {
      var i :| 0 <= i < |images| && Urls(images)[i] == url;
      assert images[i] in images;
    }
    if image :| image in images && image.url == url {
      var i :| 0 <= i < |images| && images[i] == image;
      assert Urls(images)[i] == url;
    }
  }

  lemma RefusedExactly(g: Gallery, e: Edit)
    ensures EditRefusal(g, e).None? <==> MayEdit(g, e)
  {
    forall url ensures url in Urls(g.images) <==> exists image :: image in g.images && image.url == url {
      UrlsAreThere(g.images, url);
    }
    if i :| 0 <= i < |e.existingUrls| && e.existingUrls[i] !in Urls(g.images) {
      assert e.existingUrls[i] in e.existingUrls;
    }
  }

  /**
   An edit goes through exactly when it may be made, its index is in range and its transaction commits.
   One that may not be made, such as that of anybody but the owner, leaves images, files and auction alone.
   */
  lemma EditAllowedExactly(g: Gallery, e: Edit)
    ensures var (h, error) := UpdateImages(g, e);
            && (error.None? <==> MayEdit(g, e) && IndexInRange(g, e) && e.commits)
            && (!MayEdit(g, e) ==> h == g && error.Some?)
            && (error == Some(ImageRefused(NotOwner)) <==> g.auction.row.Some? && g.auction.row.value.ownerId != e.user)
            && (error == Some(PrimaryIndexOutOfRange) <==> MayEdit(g, e) && !IndexInRange(g, e))
            && (error == Some(UpdateFailed) <==> MayEdit(g, e) && IndexInRange(g, e) && !e.commits)
  {
    RefusedExactly(g, e);
  }

  /** Only its owner, and only before it is over or bid on, changes the images of an auction. */
  predicate Untouchable(g: Gallery, e: Edit) {
    g.auction.row.Some? ==>
      || g.auction.row.value.ownerId != e.user
      || g.auction.row.value.status == Ended || g.auction.row.value.status == Canceled
      || (g.auction.row.value.status == Active && g.auction.bids != [])
  }

  lemma {:induction false} OthersChangeNothing(g: Gallery, edits: seq<Edit>)
    requires forall i :: 0 <= i < |edits| ==> Untouchable(g, edits[i])
    ensures RunEdits(g, edits) == g
    decreases |edits|
  {
    if edits == [] {
    } else {
      assert Untouchable(g, edits[0]);
      EditAllowedExactly(g, edits[0]);
      OthersChangeNothing(g, edits[1..]);
    }
  }

  /** Kept images stay in the order they were in. */
  lemma {:induction false} KeptInOrder(images: seq<Image>, image: Image, urls: seq<string>)
    ensures Kept(images + [image], urls) == Kept(images, urls) + if image.url in urls then [image] else []
    ensures Dropped(images + [image], urls) == Dropped(images, urls) + if image.url in urls then [] else [image]
  {
    if images == [] {
      assert [image][1..] == [];
    } else {
      assert (images + [image])[1..] == images[1..] + [image];
      KeptInOrder(images[1..], image, urls);
    }
  }

  /** Primary is the image at `k`, unless an earlier one has its URL. */
  predicate PrimaryByUrl(images: seq<Image>, k: nat, i: nat)
    requires k < |images| && i < |images|
  {
    images[i].isPrimary <==> images[i].url == images[k].url && forall j :: 0 <= j < k ==> images[j].url != images[k].url
  }

  lemma MarkedExactly(kept: seq<Image>, uploads: seq<string>, k: nat, nextId: nat)
    requires k < |kept| + |uploads|
    ensures var images := Marked(kept, uploads, k, nextId);
            && (forall i :: 0 <= i < |kept| ==> images[i].id == kept[i].id && images[i].url == kept[i].url)
            && (forall i :: 0 <= i < |uploads| ==>
                  images[|kept| + i].id == nextId + i && images[|kept| + i].url == uploads[i])
            && (forall i :: 0 <= i < |images| ==> PrimaryByUrl(images, k, i))
  {
    var all, images := Urls(kept) + uploads, Marked(kept, uploads, k, nextId);
    assert forall i :: 0 <= i < |all| ==> images[i].url == all[i];
    forall i | 0 <= i < |images| ensures PrimaryByUrl(images, k, i) {
      IndexIsFirst(all, all[i], k);
    }
  }

  /**
   What an edit that goes through leaves: the images kept, with their ids, then the uploads, with new
   ones; primary is the image at the index, unless an earlier one has its URL.
   */
  lemma EditedExactly(g: Gallery, e: Edit)
    requires UpdateImages(g, e).1.None?
    ensures var images, kept := UpdateImages(g, e).0.images, Kept(g.images, e.existingUrls);
            var k := if e.primaryIndex.Some? then e.primaryIndex.value else 0;
            && |images| == |kept| + |e.uploads| && k < |images|
            && (forall i :: 0 <= i < |kept| ==> images[i].id == kept[i].id && images[i].url == kept[i].url)
            && (forall i :: 0 <= i < |e.uploads| ==>
                  images[|kept| + i].id == g.nextId + i && images[|kept| + i].url == e.uploads[i])
            && (forall i :: 0 <= i < |images| ==> PrimaryByUrl(images, k, i))
  {
    MarkedExactly(Kept(g.images, e.existingUrls), e.uploads, e.primaryIndex.GetOr(0), g.nextId);
  }

  /** The auction shows the image at the index, and is otherwise as it was. */
  lemma EditedAuctionExactly(g: Gallery, e: Edit)
    requires UpdateImages(g, e).1.None?
    ensures var h := UpdateImages(g, e).0;
            var k := if e.primaryIndex.Some? then e.primaryIndex.value else 0;
            && k < |h.images| && g.auction.row.Some? && h.auction.row.Some?
            && h.auction == g.auction.(row := h.auction.row)
            && h.auction.row.value == g.auction.row.value.(details :=
                 g.auction.row.value.details.(mainImageUrl := h.images[k].url))
            && h.nextId == g.nextId + |e.uploads|
  {
    EditedExactly(g, e);
  }

  lemma IndexIsFirst(urls: seq<string>, url: string, k: nat)
    requires k < |urls| && url in urls
    ensures IndexOf(urls, url) == k <==> urls[k] == url && forall j :: 0 <= j < k ==> urls[j] != url
  {
  }

  /** The files of dropped images are gone where they could be deleted, and those of the uploads are there. */
  lemma EditedFilesExactly(g: Gallery, e: Edit)
    requires UpdateImages(g, e).1.None?
    ensures forall file :: file in UpdateImages(g, e).0.files <==>
              && (file in g.files || file in e.uploads)
              && (file in e.undeletable || forall image :: image in Dropped(g.images, e.existingUrls) ==> image.url != file)
  {
    var dropped := Dropped(g.images, e.existingUrls);
    forall file
      ensures file in UrlSet(dropped) <==> exists image :: image in dropped && image.url == file
    {
      if image :| image in dropped && image.url == file {
        var i :| 0 <= i < |dropped| && dropped[i] == image;
        assert dropped[i].url in UrlSet(dropped);
      }
    }
  }

  // --- Edit after edit ---

  /** Uploads get URLs of their own: no two alike, none in use. */
  predicate FreshUploads(g: Gallery, e: Edit) {
    && Distinct(e.uploads)
    && (forall i :: 0 <= i < |e.uploads| ==> e.uploads[i] !in g.files && e.uploads[i] !in Urls(g.images))
  }

  lemma MarkedIsDistinct(kept: seq<Image>, uploads: seq<string>, primary: nat, nextId: nat)
    requires Distinct(Urls(kept)) && Distinct(uploads) && UniqueIds(kept, nextId)
    requires forall i :: 0 <= i < |uploads| ==> uploads[i] !in Urls(kept)
    ensures Distinct(Urls(kept) + uploads)
    ensures Urls(Marked(kept, uploads, primary, nextId)) == Urls(kept) + uploads
    ensures UniqueIds(Marked(kept, uploads, primary, nextId), nextId + |uploads|)
  {
    var all := Urls(kept) + uploads;
    forall i, j | 0 <= i < j < |all|
      ensures all[i] != all[j]
    {
      if i < |kept| <= j { assert Urls(kept)[i] in Urls(kept) && all[j] == uploads[j - |kept|]; }
    }
  }

  /** An edit, whatever becomes of it, leaves a good set of images. */
  lemma EditKeepsGalleryOk(g: Gallery, e: Edit)
    requires GalleryOk(g) && FreshUploads(g, e)
    ensures GalleryOk(UpdateImages(g, e).0)
  {
    var (h, error) := UpdateImages(g, e);
    if error.None? {
      var kept := Kept(g.images, e.existingUrls);
      var primary := e.primaryIndex.GetOr(0);
      KeptUrlsDistinct(g.images, e.existingUrls);
      KeptIdsUnique(g.images, e.existingUrls, g.nextId);
      forall url | url in Urls(kept)
        ensures url in Urls(g.images)
      {
        KeptUrlsAmong(g.images, e.existingUrls, url);
      }
      MarkedIsDistinct(kept, e.uploads, primary, g.nextId);
      OnePrimaryExactly(kept, e.uploads, primary, g.nextId);
      assert PrimaryAt(h.images, primary);
    } else {
      assert h.images == g.images && h.auction == g.auction && h.nextId == g.nextId;
    }
  }

  /**
   An auction that is opened shows its one primary image, the one asked for, and its images are in
   order exactly when their URLs are distinct; one that is refused leaves nothing behind.
   */
  lemma CreatedGalleryOk(files: set<string>, nextId: nat, now: int, owner: int, l: NewListing, queueUp: bool)
    ensures var (g, error) := CreateListing(files, nextId, now, owner, l, queueUp);
            && (error.Some? ==> g == Gallery(NO_AUCTION, [], files, nextId))
            && (error.None? ==>
                  && g.auction.row.Some? && g.auction.startJob.Some?
                  && PrimaryAt(g.images, l.primaryImageIndex.GetOr(0))
                  && g.images[l.primaryImageIndex.GetOr(0)].url == g.auction.row.value.details.mainImageUrl
                  && Urls(g.images) == l.imageUrls
                  && (GalleryOk(g) <==> Distinct(l.imageUrls)))
  {
    var (g, error) := CreateListing(files, nextId, now, owner, l, queueUp);
    if error.None? {
      assert Urls(g.images) == l.imageUrls;
      assert PrimaryAt(g.images, l.primaryImageIndex.GetOr(0));
    }
  }

  /**
   An auction is opened exactly with 1 to 10 images under acceptable URLs, an index among them, an
   acceptable price and end, and the queue up; everything the owner sends is found in its row and its images.
   */
  lemma CreatedListingExactly(files: set<string>, nextId: nat, now: int, owner: int, l: NewListing, queueUp: bool)
    ensures var (g, error) := CreateListing(files, nextId, now, owner, l, queueUp);
            var k := if l.primaryImageIndex.Some? then l.primaryImageIndex.value else 0;
            && (error.None? <==>
                  && 1 <= |l.imageUrls| <= 10 && k < |l.imageUrls| && (forall url :: url in l.imageUrls ==> WellFormed(url))
                  && Acceptable(RequestOf(l, ""), now) && queueUp)
            && (error.None? ==>
                  && g.auction.row.Some? && g.auction.row.value.ownerId == owner && g.auction.row.value.status == Pending
                  && g.auction.row.value.startingPrice == l.startingPrice && g.auction.row.value.endTime == l.endTime
                  && g.auction.row.value.details ==
                     Details(l.title, l.description, if l.category.Some? then l.category.value else "other", l.imageUrls[k])
                  && g.auction.startJob ==
                     Some(if l.startTime.Some? && now < l.startTime.value then l.startTime.value else now + 2000)
                  && g.auction.bids == [] && g.auction.keys == NO_KEYS && g.files == files
                  && |g.images| == |l.imageUrls|
                  && forall i :: 0 <= i < |g.images| ==> g.images[i] == Image(nextId + i, l.imageUrls[i], i == k))
  {
    forall url | url in l.imageUrls ensures AcceptedUrl(url) <==> WellFormed(url) { AcceptedUrlExactly(url); }
    if 0 < |l.imageUrls| {
      var k := l.primaryImageIndex.GetOr(0);
      CreatedExactly(NO_AUCTION, now, owner, RequestOf(l, if k < |l.imageUrls| then l.imageUrls[k] else ""), queueUp);
    }
  }

  function RunEdits(g: Gallery, edits: seq<Edit>): Gallery
    decreases |edits|
  {
    if edits == [] then g else RunEdits(UpdateImages(g, edits[0]).0, edits[1..])
  }

  predicate AllFresh(g: Gallery, edits: seq<Edit>)
    decreases |edits|
  {
    edits == [] || (FreshUploads(g, edits[0]) && AllFresh(UpdateImages(g, edits[0]).0, edits[1..]))
  }

  lemma {:induction false} GalleryOkAlways(g: Gallery, edits: seq<Edit>)
    requires GalleryOk(g) && AllFresh(g, edits)
    ensures GalleryOk(RunEdits(g, edits))
    decreases |edits|
  {
    if edits == [] {
    } else {
      EditKeepsGalleryOk(g, edits[0]);
      GalleryOkAlways(UpdateImages(g, edits[0]).0, edits[1..]);
    }
  }

  /** From opening on, whatever edits follow, an auction opened with distinct URLs keeps its images in order. */
  lemma ListedGalleryOk(files: set<string>, nextId: nat, now: int, owner: int, l: NewListing, edits: seq<Edit>)
    requires Distinct(l.imageUrls) && CreateListing(files, nextId, now, owner, l, true).1.None?
    requires AllFresh(CreateListing(files, nextId, now, owner, l, true).0, edits)
    ensures GalleryOk(RunEdits(CreateListing(files, nextId, now, owner, l, true).0, edits))
  {
    CreatedGalleryOk(files, nextId, now, owner, l, true);
    GalleryOkAlways(CreateListing(files, nextId, now, owner, l, true).0, edits);
  }

  // --- Files ---

  /** Nothing uploaded, nothing wrong with the index, or nothing in the way of taking the uploads back. */
  predicate LeavesNoFile(g: Gallery, e: Edit) {
    || !MayEdit(g, e)
    || e.uploads == []
    || (IndexInRange(g, e) && ToSet(e.uploads) !! e.undeletable)
  }

  /**
   An edit that fails changes no row, and leaves no file behind exactly when it is refused before the
   upload, uploads nothing, or has its index in range, which is checked only after the upload, and
   its files can be removed.
   */
  lemma FailedEditUndone(g: Gallery, e: Edit)
    requires FreshUploads(g, e)
    ensures var (h, error) := UpdateImages(g, e);
            error.Some? ==> h == g.(files := h.files) && (h.files == g.files <==> LeavesNoFile(g, e))
  {
    var (h, error) := UpdateImages(g, e);
    EditAllowedExactly(g, e);
    if error.Some? && e.uploads != [] {
      assert e.uploads[0] in ToSet(e.uploads) && e.uploads[0] !in g.files;
      assert ToSet(e.uploads) !! g.files;
    }
  }

  /** The files are exactly those the images refer to. */
  predicate FilesMatch(g: Gallery) {
    g.files == UrlSet(g.images)
  }

  /** A successful edit whose removals succeed leaves exactly the files the images refer to. */
  lemma EditKeepsFilesMatching(g: Gallery, e: Edit)
    requires FilesMatch(g) && FreshUploads(g, e) && e.undeletable == {}
    requires UpdateImages(g, e).1.None?
    ensures FilesMatch(UpdateImages(g, e).0)
  {
    var h := UpdateImages(g, e).0;
    var kept, dropped := Kept(g.images, e.existingUrls), Dropped(g.images, e.existingUrls);
    UrlSetOfMarked(kept, e.uploads, e.primaryIndex.GetOr(0), g.nextId);
    UrlSetsSplit(g.images, e.existingUrls);
    assert ToSet(e.uploads) !! g.files by {
      forall url | url in ToSet(e.uploads) ensures url !in g.files {
        var i :| 0 <= i < |e.uploads| && e.uploads[i] == url;
      }
    }
  }

  lemma UrlSetOfMarked(kept: seq<Image>, uploads: seq<string>, primary: nat, nextId: nat)
    ensures UrlSet(Marked(kept, uploads, primary, nextId)) == UrlSet(kept) + ToSet(uploads)
  {
    var images := Marked(kept, uploads, primary, nextId);
    forall url | url in UrlSet(kept) + ToSet(uploads)
      ensures url in UrlSet(images)
    {
      if url in UrlSet(kept) {
        var i :| 0 <= i < |kept| && kept[i].url == url;
        assert images[i].url == url;
      } else {
        var i :| 0 <= i < |uploads| && uploads[i] == url;
        assert images[|kept| + i].url == url;
      }
    }
  }

  lemma UrlSetsSplit(images: seq<Image>, urls: seq<string>)
    ensures UrlSet(images) == UrlSet(Kept(images, urls)) + UrlSet(Dropped(images, urls))
    ensures UrlSet(Kept(images, urls)) !! UrlSet(Dropped(images, urls))
  {
    KeptAndDroppedPartition(images, urls);
    InUrlSet(images);
    InUrlSet(Kept(images, urls));
    InUrlSet(Dropped(images, urls));
  }

  lemma InUrlSet(images: seq<Image>)
    ensures forall url :: url in UrlSet(images) <==> exists image :: image in images && image.url == url
  {
    forall image | image in images
      ensures image.url in UrlSet(images)
    {
      var i :| 0 <= i < |images| && images[i] == image;
    }
    forall url | url in UrlSet(images)
      ensures exists image :: image in images && image.url == url
    {
      var i :| 0 <= i < |images| && images[i].url == url;
      assert images[i] in images;
    }
  }

  // --- The operation, row by row ---

  class ImageService {
    var auction: Auction
    var images: seq<Image>
    var files: set<string>
    var nextId: nat
    var lists: map<string, ListCache.Cached>

    ghost predicate Valid()
      reads this`images, this`nextId
    {
      UniqueIds(images, nextId)
    }

    function State(): Gallery
      reads this`auction, this`images, this`files, this`nextId
    {
      Gallery(auction, images, files, nextId)
    }

    constructor (auction: Auction, images: seq<Image>, files: set<string>, nextId: nat, lists: map<string, ListCache.Cached>)
      requires UniqueIds(images, nextId)
      ensures Valid() && State() == Gallery(auction, images, files, nextId) && this.lists == lists
    {
      this.auction, this.images, this.files, this.nextId, this.lists := auction, images, files, nextId, lists;
    }

    /** Removes the rows with the given ids, as `DELETE ... WHERE id IN (...)`. */
    static function DeleteIds(images: seq<Image>, ids: set<nat>): seq<Image> {
      if images == [] then []
      else (if images[0].id in ids then [] else [images[0]]) + DeleteIds(images[1..], ids)
    }

    static lemma {:induction false} DeletesByIdOrUrl(images: seq<Image>, ids: set<nat>, urls: seq<string>)
      requires forall i :: 0 <= i < |images| ==> (images[i].id in ids <==> images[i].url !in urls)
      ensures DeleteIds(images, ids) == Kept(images, urls)
    {
      if images == [] {
      } else {
        DeletesByIdOrUrl(images[1..], ids, urls);
      }
    }

    static lemma DroppedIds(images: seq<Image>, urls: seq<string>, nextId: nat)
      requires UniqueIds(images, nextId)
      ensures DeleteIds(images, set image | image in Dropped(images, urls) :: image.id) == Kept(images, urls)
    {
      var ids := set image | image in Dropped(images, urls) :: image.id;
      KeptAndDroppedPartition(images, urls);
      forall i | 0 <= i < |images|
        ensures images[i].id in ids <==> images[i].url !in urls
      {
        assert images[i] in images;
        if images[i].id in ids {
          var image :| image in Dropped(images, urls) && image.id == images[i].id;
          var j :| 0 <= j < |images| && images[j] == image;
          assert i == j;
        }
      }
      DeletesByIdOrUrl(images, ids, urls);
    }

    /** The rows saved for the uploaded files. */
    static function NewRows(uploads: seq<string>, all: seq<string>, primary: nat, nextId: nat): (rows: seq<Image>)
      ensures |rows| == |uploads|
    {
      seq(|uploads|, i requires 0 <= i < |uploads| =>
        Image(nextId + i, uploads[i], IndexOf(all, uploads[i]) == primary))
    }

    static lemma MarkedRows(kept: seq<Image>, uploads: seq<string>, primary: nat, nextId: nat, rows: seq<Image>)
      requires var all := Urls(kept) + uploads;
               |rows| == |kept|
               && forall i :: 0 <= i < |kept| ==> rows[i] == kept[i].(isPrimary := IndexOf(all, all[i]) == primary)
      ensures rows + NewRows(uploads, Urls(kept) + uploads, primary, nextId) == Marked(kept, uploads, primary, nextId)
      ensures UniqueIds(kept, nextId) ==> UniqueIds(Marked(kept, uploads, primary, nextId), nextId + |uploads|)
    {
    }

    /** Corrects the flag of each kept row, saving only those whose flag changes. */
    method MarkKept(kept: seq<Image>, all: seq<string>, primary: nat) returns (rows: seq<Image>)
      requires |kept| <= |all| && all[..|kept|] == Urls(kept)
      ensures |rows| == |kept|
      ensures forall i :: 0 <= i < |kept| ==> rows[i] == kept[i].(isPrimary := IndexOf(all, all[i]) == primary)
    {
      rows := kept;
      for i := 0 to |kept|
        invariant |rows| == |kept|
        invariant forall j :: 0 <= j < i ==> rows[j] == kept[j].(isPrimary := IndexOf(all, all[j]) == primary)
        invariant forall j :: i <= j < |kept| ==> rows[j] == kept[j]
      {
        assert all[i] == all[..|kept|][i] == kept[i].url;
        var newIsPrimary := IndexOf(all, rows[i].url) == primary;
        if rows[i].isPrimary != newIsPrimary {
          rows := rows[i := rows[i].(isPrimary := newIsPrimary)];
        }
      }
    }

    /** The transaction: drops rows, corrects flags, adds rows, and shows the primary image on the auction. */
    method SaveImages(e: Edit, toKeep: seq<Image>, toDelete: seq<Image>, primary: nat)
      requires Valid() && auction.row.Some?
      requires toKeep == Kept(images, e.existingUrls) && toDelete == Dropped(images, e.existingUrls)
      requires primary < |toKeep| + |e.uploads|
      modifies this`images, this`nextId, this`auction
      ensures Valid()
      ensures images == Marked(toKeep, e.uploads, primary, old(nextId)) && nextId == old(nextId) + |e.uploads|
      ensures auction == WithMainUrl(old(auction), (Urls(toKeep) + e.uploads)[primary])
    {
      DroppedIds(images, e.existingUrls, nextId);
      KeptIdsUnique(images, e.existingUrls, nextId);
      var all := Urls(toKeep) + e.uploads;
      var rows := DeleteIds(images, set image | image in toDelete :: image.id);
      rows := MarkKept(rows, all, primary);
      MarkedRows(toKeep, e.uploads, primary, nextId, rows);
      images := rows + NewRows(e.uploads, all, primary, nextId);
      nextId := nextId + |e.uploads|;
      auction := WithMainUrl(auction, all[primary]);
    }

    /** Opens the auction whose images this service then looks after. */
    method CreateAuction(now: int, owner: int, l: NewListing, queueUp: bool) returns (error: Option<ImageError>)
      requires auction == NO_AUCTION && images == []
      modifies this`auction, this`images, this`nextId
      ensures Valid()
      ensures (State(), error) == CreateListing(old(files), old(nextId), now, owner, l, queueUp)
    {
      if !ValidListing(l, now) {
        return Some(ImageRefused(Invalid));
      }
      var primaryImageIndex := l.primaryImageIndex.GetOr(0);
      if primaryImageIndex >= |l.imageUrls| {
        return Some(PrimaryIndexOutOfRange);
      }
      var primaryImageUrl := l.imageUrls[primaryImageIndex];
      var saved := Create(auction, now, owner, RequestOf(l, primaryImageUrl), queueUp);
      if saved.row.None? {
        return Some(CreationFailed);
      }
      images := NewImages(l.imageUrls, primaryImageIndex, nextId);
      auction, nextId := saved, nextId + |l.imageUrls|;
      return None;
    }

    method UpdateAuctionImages(e: Edit) returns (error: Option<ImageError>)
      requires Valid()
      modifies this
      ensures Valid()
      ensures (State(), error) == UpdateImages(old(State()), e)
      ensures lists == if error.None? then ListCache.Invalidated(old(lists)) else old(lists)
    {
      error := EditRefusal(State(), e);
      if error.Some? { return; }

      var toKeep := Kept(images, e.existingUrls);
      var toDelete := Dropped(images, e.existingUrls);
      files := files + ToSet(e.uploads);
      var primary := e.primaryIndex.GetOr(0);
      if primary >= |toKeep| + |e.uploads| {
        error := Some(PrimaryIndexOutOfRange);
      } else if !e.commits {
        files := files - (ToSet(e.uploads) - e.undeletable);
        error := Some(UpdateFailed);
      } else {
        SaveImages(e, toKeep, toDelete, primary);
        files := files - (UrlSet(toDelete) - e.undeletable);
        lists := map key | key in lists && !ListCache.ListPattern(key) :: lists[key];
      }
    }
  }
}
