/**
 * The loops of scraper.py that look for menu text in images: `extract_text_from_images` (every
 * image of a page), `scrape_ica_instaloader` (the newest Instagram posts, at most `max_posts`) and
 * `scrape_ica_instagram` (the first eight images of the Instagram page). Downloads and Tesseract
 * runs are inputs; the filters that decide what counts as a menu and the loops are modelled.
 */
module ImageMenus {
  import opened Wrappers
  import opened Text
  import opened Cleaning
  import opened Ocr
  import opened Found

  /** Words that make an image text a menu in `extract_text_from_images`. */
  const ImageMenuWords: seq<string> := ["lunch", "måndag", "tisdag", "onsdag", "torsdag", "fredag", "veck", "meny"]

  /** Words that make a post text a weekly menu in `scrape_ica_instaloader`. */
  const WeeklyMenuWords: seq<string> := ["veckomeny", "veckans", "måndag", "tisdag", "onsdag", "torsdag", "fredag", "lunch"]

  /** Words that make an image text a weekly menu in `scrape_ica_instagram`. */
  const InstagramMenuWords: seq<string> := ["veckomeny", "måndag", "tisdag", "onsdag", "torsdag", "fredag", "lunch"]

  /** How many of the page's images `scrape_ica_instagram` looks at. */
  const RecentImages: nat := 8

  /** The filter of `extract_text_from_images`: more than 20 characters once stripped, and a menu word in the lower-cased text. */
  predicate IsImageMenuText(best: string) {
    |Strip(best)| > 20 && ContainsAny(Lower(best), ImageMenuWords)
  }

  /** The filter of `scrape_ica_instaloader` (its texts are already stripped): more than 30 characters and a weekly-menu word. */
  predicate IsWeeklyMenuText(text: string) {
    |text| > 30 && ContainsAny(Lower(text), WeeklyMenuWords)
  }

  /** The filter of `scrape_ica_instagram`: more than 30 characters once stripped, and a weekly-menu word. */
  predicate IsInstagramMenuText(text: string) {
    |Strip(text)| > 30 && ContainsAny(Lower(text), InstagramMenuWords)
  }

  /** An HTTP response: its status code and, for the body, the Tesseract runs, or `None` when the body cannot be opened as an image. */
  datatype Download = Download(status: int, image: Option<OcrRuns>)

  /** An `<img>` element: its `src` attribute (`None` when absent) and the download of that address (`None` when the request raised). */
  datatype WebImage = WebImage(src: Option<string>, download: Option<Download>)

  /** Whether `extract_text_from_images` skips an image because of its address: none, empty, or a `data:` address. */
  predicate SkipsSource(src: Option<string>) {
    src.None? || src.value == [] || Contains(src.value, "data:")
  }

  /** The text `extract_text_from_images` keeps from one image, if any: the stripped best OCR text when it looks like a menu. */
  function ImageMenuText(img: WebImage): Option<string> {
    if SkipsSource(img.src) || img.download.None? then None
    else
      var d := img.download.value;
      if d.status != 200 || d.image.None? then None
      else
        var best := BestText(d.image.value);
        if IsImageMenuText(best) then Some(Strip(best)) else None
  }

  /** The OCR text of one post, when it looks like a weekly menu (a failed request or a status other than 200 gives none). */
  function PostMenuText(post: Option<Download>): Option<string> {
    match post
    case None => None
    case Some(d) =>
      if d.status != 200 then None
      else
        var text := OcrText(d.image);
        if IsWeeklyMenuText(text) then Some(text) else None
  }

  /** The text `scrape_ica_instagram` takes from one image, if any: the `--psm 6` run's text when it looks like a weekly menu. */
  function InstagramMenuText(img: WebImage): Option<string> {
    if SkipsSource(img.src) || |img.src.value| < 50 || img.download.None? then None
    else
      var d := img.download.value;
      if d.status != 200 || d.image.None? then None
      else
        match d.image.value.psm6
        case Failed => None
        case Read(text) => if IsInstagramMenuText(text) then Some(text) else None
  }

  function ImageMenuTexts(images: seq<WebImage>): seq<Option<string>> {
    seq(|images|, k requires 0 <= k < |images| => ImageMenuText(images[k]))
  }

  function PostMenuTexts(posts: seq<Option<Download>>): seq<Option<string>> {
    seq(|posts|, k requires 0 <= k < |posts| => PostMenuText(posts[k]))
  }

  function InstagramMenuTexts(images: seq<WebImage>): seq<Option<string>> {
    seq(|images|, k requires 0 <= k < |images| => InstagramMenuText(images[k]))
  }

  /** How many posts the `max_posts` loop looks at: none when `max_posts` is not positive, at most `max_posts` otherwise. */
  function Examined(count: nat, maxPosts: int): nat {
    if maxPosts <= 0 then 0 else Min(maxPosts, count)
  }

  /** What `extract_text_from_images` returns: the texts kept, separated by blank lines, or `None` when none was kept. */
  function ImagesMenu(images: seq<WebImage>): Option<string> {
    var texts := Collected(ImageMenuTexts(images), |images|);
    if texts == [] then None else Some(Join(texts, "\n\n"))
  }

  /** What `scrape_ica_instaloader` returns: the cleaned text of the first qualifying post among those examined. */
  function InstaloaderMenu(posts: seq<Option<Download>>, maxPosts: int): Option<string> {
    match FirstFound(PostMenuTexts(posts), Examined(|posts|, maxPosts))
    case None => None
    case Some(text) => Some(CleanSpec(text))
  }

  /** The images `scrape_ica_instagram` looks at: `posts[:8]`. */
  function RecentOf(images: seq<WebImage>): seq<WebImage> {
    images[..Min(RecentImages, |images|)]
  }

  /** What `scrape_ica_instagram` returns: the cleaned text of the first qualifying image among the first eight. */
  function InstagramMenu(images: seq<WebImage>): Option<string> {
    var recent := RecentOf(images);
    match FirstFound(InstagramMenuTexts(recent), |recent|)
    case None => None
    case Some(text) => Some(CleanSpec(text))
  }

  /** A text kept from an image has more than 20 characters and no whitespace at either end. */
  lemma ImageMenuTextShape(img: WebImage)
    requires ImageMenuText(img).Some?
    ensures |ImageMenuText(img).value| > 20
    ensures Strip(ImageMenuText(img).value) == ImageMenuText(img).value
  {
    var best := BestText(img.download.value.image.value);
    StripSlice(best);
    StripNoEdges(Strip(best));
  }

  /** `extract_text_from_images` returns `None` exactly when no image gave a text. */
  lemma ImagesMenuNone(images: seq<WebImage>)
    ensures ImagesMenu(images).None? <==> forall k :: 0 <= k < |images| ==> ImageMenuText(images[k]).None?
  {
    var found := ImageMenuTexts(images);
    CollectedNone(found, |images|);
    forall k | 0 <= k < |images|
      ensures found[k] == ImageMenuText(images[k])
    {
    }
  }

  /** The texts `extract_text_from_images` joins are the texts the images gave, in image order. */
  lemma ImagesMenuTexts(images: seq<WebImage>)
    ensures var texts := Collected(ImageMenuTexts(images), |images|);
      var at := CollectedIndices(ImageMenuTexts(images), |images|);
      |at| == |texts|
      && (forall p :: 0 <= p < |texts| ==> at[p] < |images| && ImageMenuText(images[at[p]]) == Some(texts[p]))
      && (forall p, q :: 0 <= p < q < |texts| ==> at[p] < at[q])
      && (forall k :: 0 <= k < |images| && ImageMenuText(images[k]).Some? ==> k in at)
  {
    var found := ImageMenuTexts(images);
    CollectedInOrder(found, |images|);
    forall k | 0 <= k < |images|
      ensures found[k] == ImageMenuText(images[k])
    {
    }
  }

  /** At most `max_posts` posts are looked at: posts after them never change the result. */
  lemma InstaloaderExaminesAtMost(posts: seq<Option<Download>>, more: seq<Option<Download>>, maxPosts: int)
    requires maxPosts <= |posts|
    ensures InstaloaderMenu(posts + more, maxPosts) == InstaloaderMenu(posts, maxPosts)
  {
    var e := Examined(|posts|, maxPosts);
    assert Examined(|posts + more|, maxPosts) == e;
    assert PostMenuTexts(posts + more) == PostMenuTexts(posts) + PostMenuTexts(more);
    FirstFoundPrefix(PostMenuTexts(posts), PostMenuTexts(more), e);
  }

  /**
   * `scrape_ica_instaloader` finds a menu exactly when one of the examined posts qualifies, and
   * then returns the cleaned text of the first such post.
   */
  lemma InstaloaderMenuIsFirst(posts: seq<Option<Download>>, maxPosts: int)
    ensures InstaloaderMenu(posts, maxPosts).None? <==>
      forall k :: 0 <= k < Examined(|posts|, maxPosts) ==> PostMenuText(posts[k]).None?
    ensures InstaloaderMenu(posts, maxPosts).Some? ==>
      exists k :: 0 <= k < Examined(|posts|, maxPosts) && PostMenuText(posts[k]).Some?
        && InstaloaderMenu(posts, maxPosts) == Some(CleanSpec(PostMenuText(posts[k]).value))
        && forall m :: 0 <= m < k ==> PostMenuText(posts[m]).None?
  {
    var found := PostMenuTexts(posts);
    var e := Examined(|posts|, maxPosts);
    FirstFoundIsFirst(found, e);
    forall m | 0 <= m < e
      ensures found[m] == PostMenuText(posts[m])
    {
    }
    if FirstFound(found, e).Some? {
      var k :| 0 <= k < e && found[k] == FirstFound(found, e) && forall m :: 0 <= m < k ==> found[m].None?;
      assert InstaloaderMenu(posts, maxPosts) == Some(CleanSpec(found[k].value));
    }
  }

  /** Only the first eight images are looked at: images after them never change the result. */
  lemma InstagramExaminesEight(images: seq<WebImage>, more: seq<WebImage>)
    requires |images| >= RecentImages
    ensures InstagramMenu(images + more) == InstagramMenu(images)
  {
    assert RecentOf(images + more) == RecentOf(images);
  }

  /**
   * `scrape_ica_instagram` finds a menu exactly when one of the first eight images qualifies, and
   * then returns the cleaned text of the first such image.
   */
  lemma InstagramMenuIsFirst(images: seq<WebImage>)
    ensures InstagramMenu(images).None? <==>
      forall k :: 0 <= k < Min(RecentImages, |images|) ==> InstagramMenuText(images[k]).None?
    ensures InstagramMenu(images).Some? ==>
      exists k :: 0 <= k < Min(RecentImages, |images|) && InstagramMenuText(images[k]).Some?
        && InstagramMenu(images) == Some(CleanSpec(InstagramMenuText(images[k]).value))
        && forall m :: 0 <= m < k ==> InstagramMenuText(images[m]).None?
  {
    var recent := RecentOf(images);
    var found := InstagramMenuTexts(recent);
    FirstFoundIsFirst(found, |recent|);
    forall m | 0 <= m < |recent|
      ensures found[m] == InstagramMenuText(images[m])
    {
    }
    if FirstFound(found, |recent|).Some? {
      var k :| 0 <= k < |recent| && found[k] == FirstFound(found, |recent|) && forall m :: 0 <= m < k ==> found[m].None?;
      assert InstagramMenu(images) == Some(CleanSpec(found[k].value));
    }
  }

  /** The menu both Instagram scrapers return is cleaned text: never longer, single-spaced, no whitespace at the ends. */
  lemma InstagramMenusAreClean(posts: seq<Option<Download>>, maxPosts: int, images: seq<WebImage>)
    ensures InstaloaderMenu(posts, maxPosts).Some? ==>
      Blanked(InstaloaderMenu(posts, maxPosts).value) && NoEdgeSpace(InstaloaderMenu(posts, maxPosts).value)
    ensures InstagramMenu(images).Some? ==>
      Blanked(InstagramMenu(images).value) && NoEdgeSpace(InstagramMenu(images).value)
  {
    var p := FirstFound(PostMenuTexts(posts), Examined(|posts|, maxPosts));
    if p.Some? {
      CleanShape(p.value);
    }
    var recent := RecentOf(images);
    var q := FirstFound(InstagramMenuTexts(recent), |recent|);
    if q.Some? {
      CleanShape(q.value);
    }
  }

  /** `extract_text_from_images` over the given images (the page's `<img>` elements, in page order). */
  method ExtractTextFromImages(images: seq<WebImage>) returns (result: Option<string>)
    ensures result == ImagesMenu(images)
  {
    var extracted: seq<string> := [];
    for i := 0 to |images|
      invariant extracted == Collected(ImageMenuTexts(images), i)
    {
      var img := images[i];
      assert ImageMenuTexts(images)[i] == ImageMenuText(img);
      if img.src.None? || img.src.value == [] || Contains(img.src.value, "data:") {
        continue;
      }
      match img.download {
        case None =>
        case Some(response) =>
          if response.status == 200 {
            match response.image {
              case None =>
              case Some(runs) =>
                var best := SelectBestText(Attempts(runs));
                if |Strip(best)| > 20 && ContainsAny(Lower(best), ImageMenuWords) {
                  extracted := extracted + [Strip(best)];
                }
            }
          }
      }
    }
    if extracted != [] {
      result := Some(Join(extracted, "\n\n"));
    } else {
      result := None;
    }
  }

  /** The post loop of `scrape_ica_instaloader` over the profile's posts, newest first. */
  method ScrapeIcaInstaloader(posts: seq<Option<Download>>, maxPosts: int) returns (menu: Option<string>)
    ensures menu == InstaloaderMenu(posts, maxPosts)
  {
    var countChecked := 0;
    while countChecked < |posts|
      invariant countChecked <= |posts|
      invariant countChecked == 0 || countChecked <= maxPosts
      invariant FirstFound(PostMenuTexts(posts), countChecked).None?
    {
      if countChecked >= maxPosts {
        break;
      }
      var post := posts[countChecked];
      countChecked := countChecked + 1;
      match post {
        case None =>
        case Some(resp) =>
          if resp.status == 200 {
            var text := OcrImageBytes(resp.image);
            if |text| > 30 && ContainsAny(Lower(text), WeeklyMenuWords) {
              FirstFoundStays(PostMenuTexts(posts), countChecked, Examined(|posts|, maxPosts));
              var cleaned := CleanMenuText(text);
              return Some(cleaned);
            }
          }
      }
    }
    menu := None;
  }

  /** The image loop of `scrape_ica_instagram` over the page's images, in page order. */
  method ScrapeIcaInstagram(images: seq<WebImage>) returns (menu: Option<string>)
    ensures menu == InstagramMenu(images)
  {
    var recent := images[..Min(RecentImages, |images|)];
    for i := 0 to |recent|
      invariant FirstFound(InstagramMenuTexts(recent), i).None?
    {
      var img := recent[i];
      if img.src.None? || img.src.value == [] || Contains(img.src.value, "data:") || |img.src.value| < 50 {
        continue;
      }
      match img.download {
        case None =>
        case Some(response) =>
          if response.status == 200 && response.image.Some? {
            match response.image.value.psm6 {
              case Failed =>
              case Read(text) =>
                if |Strip(text)| > 30 && ContainsAny(Lower(text), InstagramMenuWords) {
                  FirstFoundStays(InstagramMenuTexts(recent), i + 1, |recent|);
                  var cleaned := CleanMenuText(text);
                  return Some(cleaned);
                }
            }
          }
      }
    }
    menu := None;
  }
}
