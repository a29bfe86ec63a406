/**
 * The image lightbox: which source an image opens with, which image a click
 * in the main content opens, and the open/close state of the overlay.
 * Preloading is abstracted to membership in the set of URLs that load.
 */
module Lightbox {
  import opened Wrappers

  /** The attributes of an `<img>` that the lightbox reads. */
  datatype Image = Image(
    dataLbSrc: Option<string>,    // the 'data-lb-src' attribute
    currentSrc: string,           // the source the browser picked ('' when none)
    src: string,                  // the 'src' property ('' when none)
    dataCaption: Option<string>,  // the 'data-caption' attribute
    alt: string,
    noLightbox: bool)             // carries 'data-no-lightbox'

  const NoCandidateLoaded := "No candidate image loaded."

  // ---------- chooseBestSrc ----------

  /** `candidates.push(u)` when `u` is non-empty and not yet in the list. */
  function PushNew(cs: seq<string>, u: string): seq<string>
  {
    if u != "" && u !in cs then cs + [u] else cs
  }

  /** An attribute that is missing reads as no candidate, like an empty one. */
  function AttributeText(a: Option<string>): string
  {
    match a
    case Some(t) => t
    case None => ""
  }

  predicate Distinct(cs: seq<string>)
  {
    forall i, j :: 0 <= i < j < |cs| ==> cs[i] != cs[j]
  }

  /** The candidate list: 'data-lb-src', then `currentSrc`, then `src`, without repeats or empty URLs. */
  function Candidates(img: Image): (cs: seq<string>)
    ensures Distinct(cs) && "" !in cs
  {
    var c0 := PushNew([], AttributeText(img.dataLbSrc));
    var c1 := PushNew(c0, img.currentSrc);
    PushNewKeepsDistinct([], AttributeText(img.dataLbSrc));
    PushNewKeepsDistinct(c0, img.currentSrc);
    PushNewKeepsDistinct(c1, img.src);
    PushNew(c1, img.src)
  }

  lemma PushNewKeepsDistinct(cs: seq<string>, u: string)
    requires Distinct(cs) && "" !in cs
    ensures Distinct(PushNew(cs, u)) && "" !in PushNew(cs, u)
    ensures forall x :: x in PushNew(cs, u) <==> x in cs || (x == u && u != "")
    ensures cs <= PushNew(cs, u)
  {
  }

  /**
   * The candidates are exactly the non-empty ones among the three sources,
   * each once, with 'data-lb-src' first when it is set and `currentSrc`
   * before a `src` that repeats neither of the others.
   */
  lemma CandidatesSpec(img: Image)
    ensures var cs := Candidates(img);
      Distinct(cs) && "" !in cs &&
      (forall u :: u in cs <==> u != "" && (u == AttributeText(img.dataLbSrc) || u == img.currentSrc || u == img.src))
    ensures AttributeText(img.dataLbSrc) != "" ==> Candidates(img)[0] == AttributeText(img.dataLbSrc)
    ensures img.src != img.currentSrc && img.src != AttributeText(img.dataLbSrc) ==>
      forall i, j ::
        (0 <= i < |Candidates(img)| && 0 <= j < |Candidates(img)| &&
         Candidates(img)[i] == img.currentSrc && Candidates(img)[j] == img.src) ==> i < j
  {
    var c0 := PushNew([], AttributeText(img.dataLbSrc));
    var c1 := PushNew(c0, img.currentSrc);
    PushNewKeepsDistinct([], AttributeText(img.dataLbSrc));
    PushNewKeepsDistinct(c0, img.currentSrc);
    PushNewKeepsDistinct(c1, img.src);
  }

  /** The first candidate that loads, or the error `chooseBestSrc` throws. */
  function FirstLoadable(cs: seq<string>, loadable: set<string>): (r: Result<string, string>)
    ensures r.Err? <==> forall j :: 0 <= j < |cs| ==> cs[j] !in loadable
    ensures r.Err? ==> r.error == NoCandidateLoaded
    ensures r.Ok? ==> exists k :: (0 <= k < |cs| && cs[k] == r.value && r.value in loadable &&
      forall j :: 0 <= j < k ==> cs[j] !in loadable)
  {
    if cs == [] then Err(NoCandidateLoaded)
    else if cs[0] in loadable then Ok(cs[0])
    else
      var r := FirstLoadable(cs[1..], loadable);
      assert r.Ok? ==> exists k :: (0 <= k < |cs| && cs[k] == r.value && r.value in loadable &&
        forall j :: 0 <= j < k ==> cs[j] !in loadable) by {
        if r.Ok? {
          var k :| 0 <= k < |cs[1..]| && cs[1..][k] == r.value && r.value in loadable &&
            forall j :: 0 <= j < k ==> cs[1..][j] !in loadable;
          assert cs[k + 1] == r.value;
          assert forall j :: 0 <= j < k + 1 ==> cs[j] !in loadable by {
            forall j | 0 <= j < k + 1 ensures cs[j] !in loadable {
              if j > 0 { assert cs[j] == cs[1..][j - 1]; }
            }
          }
        }
      }
      r
  }

  /** When the first `i` candidates fail, the choice is made among the rest. */
  lemma {:induction false} FirstLoadableAfter(cs: seq<string>, loadable: set<string>, i: nat)
    requires i <= |cs| && forall j :: 0 <= j < i ==> cs[j] !in loadable
    ensures FirstLoadable(cs, loadable) == FirstLoadable(cs[i..], loadable)
  {
    if i > 0 {
      assert cs[1..][i - 1..] == cs[i..];
      FirstLoadableAfter(cs[1..], loadable, i - 1);
    }
  }

  /**
   * `chooseBestSrc`: builds the candidate list and preloads candidates in
   * order until one loads. `tried` lists the URLs preloaded: a prefix of the
   * candidates ending at the chosen one, so later candidates are never tried.
   */
  method ChooseBestSrc(img: Image, loadable: set<string>) returns (r: Result<string, string>, tried: seq<string>)
    ensures r == FirstLoadable(Candidates(img), loadable)
    ensures tried <= Candidates(img)
    ensures forall j :: 0 <= j < |tried| - 1 ==> tried[j] !in loadable
    ensures r.Ok? <==> tried != [] && tried[|tried| - 1] in loadable
    ensures r.Ok? ==> r.value == tried[|tried| - 1]
    ensures r.Err? ==> tried == Candidates(img)
  {
    var candidates := CollectCandidates(img);
    r, tried := PreloadInOrder(candidates, loadable);
  }

  /** The first half of `chooseBestSrc`: the candidate list. */
  method CollectCandidates(img: Image) returns (candidates: seq<string>)
    ensures candidates == Candidates(img)
  {
    candidates := [];
    var data := AttributeText(img.dataLbSrc);
    if data != "" {
      candidates := candidates + [data];
    }
    if img.currentSrc != "" && img.currentSrc !in candidates {
      candidates := candidates + [img.currentSrc];
    }
    if img.src != "" && img.src !in candidates {
      candidates := candidates + [img.src];
    }
  }

  /** The second half of `chooseBestSrc`: preload each candidate until one loads. */
  method PreloadInOrder(candidates: seq<string>, loadable: set<string>) returns (r: Result<string, string>, tried: seq<string>)
    ensures r == FirstLoadable(candidates, loadable)
    ensures tried <= candidates
    ensures forall j :: 0 <= j < |tried| - 1 ==> tried[j] !in loadable
    ensures r.Ok? <==> tried != [] && tried[|tried| - 1] in loadable
    ensures r.Ok? ==> r.value == tried[|tried| - 1]
    ensures r.Err? ==> tried == candidates
  {
    tried := [];
    var i := 0;
    while i < |candidates|
      invariant 0 <= i <= |candidates|
      invariant tried == candidates[..i]
      invariant forall j :: 0 <= j < i ==> candidates[j] !in loadable
    {
      var url := candidates[i];
      tried := tried + [url];
      if url in loadable {
        FirstLoadableAfter(candidates, loadable, i);
        return Ok(url), tried;
      }
      i := i + 1;
    }
    FirstLoadableAfter(candidates, loadable, i);
    return Err(NoCandidateLoaded), tried;
  }

  // ---------- Which image a click opens ----------

  /**
   * An element on the path from the click target up to, not including,
   * '#main': the image it is, if it is an `<img>`; whether it has the class
   * 'image'; and the `<img>` elements inside it, in document order.
   */
  datatype Node = Node(image: Option<Image>, isImageWrapper: bool, descendants: seq<Image>)

  predicate Openable(n: Node)
  {
    n.image.Some? && !n.image.value.noLightbox
  }

  /** `closest('#main img:not([data-no-lightbox])')`, as an index into the path (|path| when none). */
  function ClosestOpenable(path: seq<Node>): (k: nat)
    ensures k <= |path|
    ensures k < |path| ==> Openable(path[k])
    ensures forall j :: 0 <= j < k ==> !Openable(path[j])
  {
    if path == [] then 0
    else if Openable(path[0]) then 0
    else 1 + ClosestOpenable(path[1..])
  }

  /** `closest('#main .image')`, as an index into the path (|path| when none). */
  function ClosestWrapper(path: seq<Node>): (k: nat)
    ensures k <= |path|
    ensures k < |path| ==> path[k].isImageWrapper
    ensures forall j :: 0 <= j < k ==> !path[j].isImageWrapper
  {
    if path == [] then 0
    else if path[0].isImageWrapper then 0
    else 1 + ClosestWrapper(path[1..])
  }

  /** `querySelector('img:not([data-no-lightbox])')` over a wrapper's images. */
  function FirstUnflagged(images: seq<Image>): (r: Option<Image>)
    ensures r.None? <==> forall j :: 0 <= j < |images| ==> images[j].noLightbox
    ensures r.Some? ==> exists k :: (0 <= k < |images| && images[k] == r.value && !r.value.noLightbox &&
      forall j :: 0 <= j < k ==> images[j].noLightbox)
  {
    if images == [] then None
    else if !images[0].noLightbox then Some(images[0])
    else
      var r := FirstUnflagged(images[1..]);
      assert r.Some? ==> exists k :: (0 <= k < |images| && images[k] == r.value && !r.value.noLightbox &&
        forall j :: 0 <= j < k ==> images[j].noLightbox) by {
        if r.Some? {
          var k :| 0 <= k < |images[1..]| && images[1..][k] == r.value && !r.value.noLightbox &&
            forall j :: 0 <= j < k ==> images[1..][j].noLightbox;
          assert images[k + 1] == r.value;
          assert forall j :: 0 <= j < k + 1 ==> images[j].noLightbox by {
            forall j | 0 <= j < k + 1 ensures images[j].noLightbox {
              if j > 0 { assert images[j] == images[1..][j - 1]; }
            }
          }
        }
      }
      r
  }

  /**
   * The click delegation on '#main': the nearest `<img>` without
   * 'data-no-lightbox', else the first such `<img>` inside the nearest
   * '.image' wrapper, else nothing.
   */
  function SelectImage(path: seq<Node>): (r: Option<Image>)
    ensures r.Some? ==> !r.value.noLightbox
  {
    var k := ClosestOpenable(path);
    if k < |path| then path[k].image
    else
      var w := ClosestWrapper(path);
      if w < |path| then FirstUnflagged(path[w].descendants) else None
  }

  /**
   * An image carrying 'data-no-lightbox' is never opened, and what is opened
   * is an image on the click path or one inside the nearest wrapper.
   */
  lemma SelectImageSpec(path: seq<Node>)
    ensures SelectImage(path).Some? ==> !SelectImage(path).value.noLightbox
    ensures SelectImage(path).Some? ==>
      (exists k :: 0 <= k < |path| && path[k].image == SelectImage(path)) ||
      (ClosestWrapper(path) < |path| && SelectImage(path).value in path[ClosestWrapper(path)].descendants)
    ensures SelectImage(path).None? <==>
      (forall j :: 0 <= j < |path| ==> !Openable(path[j])) &&
      (ClosestWrapper(path) < |path| ==> forall i :: 0 <= i < |path[ClosestWrapper(path)].descendants| ==>
        path[ClosestWrapper(path)].descendants[i].noLightbox)
  {
  }

  /** Clicking an `<img>` without 'data-no-lightbox' opens that image. */
  lemma ClickOnImageOpensIt(path: seq<Node>)
    requires |path| > 0 && Openable(path[0])
    ensures SelectImage(path) == path[0].image
  {
  }

  /**
   * Clicking a flagged image opens nothing when no '.image' wrapper encloses
   * it and no other `<img>` is on the path.
   */
  lemma FlaggedImageOutsideWrapper(path: seq<Node>)
    requires |path| > 0 && path[0].image.Some? && path[0].image.value.noLightbox
    requires forall j :: 0 <= j < |path| ==> !path[j].isImageWrapper
    requires forall j :: 1 <= j < |path| ==> path[j].image.None?
    ensures SelectImage(path) == None
  {
    assert forall j :: 0 <= j < |path| ==> !Openable(path[j]);
  }

  /**
   * Clicking a flagged image opens the first unflagged image of the nearest
   * '.image' wrapper `w` when no element on the path is an unflagged image:
   * a flagged click can still open another image.
   */
  lemma FlaggedImageInsideWrapper(path: seq<Node>, w: nat)
    requires |path| > 0 && path[0].image.Some? && path[0].image.value.noLightbox
    requires forall j :: 0 <= j < |path| ==> !Openable(path[j])
    requires w < |path| && path[w].isImageWrapper
    requires forall j :: 0 <= j < w ==> !path[j].isImageWrapper
    requires exists i :: 0 <= i < |path[w].descendants| && !path[w].descendants[i].noLightbox
    ensures SelectImage(path) == FirstUnflagged(path[w].descendants)
    ensures SelectImage(path).Some? && SelectImage(path).value in path[w].descendants
    ensures SelectImage(path) != path[0].image
  {
    assert ClosestOpenable(path) == |path|;
    assert ClosestWrapper(path) == w;
  }

  // ---------- The overlay ----------

  /** Everything the open/close logic writes. */
  datatype View = View(
    open: bool,          // the overlay's 'open' class
    loading: bool,       // the stage's 'loading' class
    imgSrc: string,      // the src of the overlay's image
    caption: string,     // the text of the caption
    zoom: real,
    panX: real,
    panY: real,
    grabbable: bool,     // the stage's 'grabbable' class, set when zoom > 1
    bodyOverflow: string)

  /** `data-caption`, else `alt`, else ''. */
  function Caption(img: Image): (c: string)
    ensures AttributeText(img.dataCaption) != "" ==> c == AttributeText(img.dataCaption)
    ensures AttributeText(img.dataCaption) == "" ==> c == img.alt
  {
    if AttributeText(img.dataCaption) != "" then AttributeText(img.dataCaption)
    else if img.alt != "" then img.alt
    else ""
  }

  /** `zoom = 1; panX = 0; panY = 0; applyTransform()` */
  function ResetTransform(v: View): View
  {
    v.(zoom := 1.0, panX := 0.0, panY := 0.0, grabbable := 1.0 > 1.0)
  }

  /**
   * The synchronous part of `openLightboxFor`, before the source is chosen:
   * the overlay is open and loading, with no image yet, the image's caption,
   * the view reset and the page scroll locked.
   */
  function Opening(v: View, img: Image): (w: View)
    ensures w.open && w.loading && w.imgSrc == "" && w.caption == Caption(img) && w.bodyOverflow == "hidden"
    ensures w.zoom == 1.0 && w.panX == 0.0 && w.panY == 0.0 && !w.grabbable
  {
    ResetTransform(v).(imgSrc := "", caption := Caption(img), loading := true, open := true, bodyOverflow := "hidden")
  }

  /**
   * The rest of `openLightboxFor`, once `chooseBestSrc` has settled: whatever
   * the outcome, loading is cleared and the view reset; only a success sets
   * the image; the open flag, caption and scroll lock are kept.
   */
  function Settled(v: View, chosen: Result<string, string>): (w: View)
    ensures !w.loading && w.zoom == 1.0 && w.panX == 0.0 && w.panY == 0.0 && !w.grabbable
    ensures w.imgSrc == if chosen.Ok? then chosen.value else v.imgSrc
    ensures w.open == v.open && w.caption == v.caption && w.bodyOverflow == v.bodyOverflow
  {
    var w := if chosen.Ok? then v.(imgSrc := chosen.value) else v;
    ResetTransform(w.(loading := false))
  }

  /**
   * `openLightboxFor`, with nothing happening while the source is chosen: it
   * ends open, not loading, at zoom 1 and pan (0,0), with the image's caption
   * and the page scroll locked; the image is the first candidate that loads,
   * or none when no candidate loads.
   */
  function Open(v: View, img: Image, loadable: set<string>): (w: View)
    ensures w.open && !w.loading && w.zoom == 1.0 && w.panX == 0.0 && w.panY == 0.0 && !w.grabbable
    ensures w.caption == Caption(img) && w.bodyOverflow == "hidden"
    ensures FirstLoadable(Candidates(img), loadable).Ok? ==>
      w.imgSrc == FirstLoadable(Candidates(img), loadable).value && w.imgSrc in loadable && w.imgSrc in Candidates(img)
    ensures FirstLoadable(Candidates(img), loadable).Err? ==> w.imgSrc == ""
  {
    Settled(Opening(v, img), FirstLoadable(Candidates(img), loadable))
  }

  /** `closeLightbox`: closed, no image, no caption, scroll restored; the view is kept. */
  function Close(v: View): (w: View)
    ensures !w.open && w.imgSrc == "" && w.caption == "" && w.bodyOverflow == ""
    ensures w.loading == v.loading && w.zoom == v.zoom && w.panX == v.panX && w.panY == v.panY && w.grabbable == v.grabbable
  {
    v.(open := false, bodyOverflow := "", imgSrc := "", caption := "")
  }

  /** Closing is idempotent. */
  lemma CloseIdempotent(v: View)
    ensures Close(Close(v)) == Close(v)
  {
  }

  /**
   * A close while the image is still loading keeps the overlay closed; the
   * source that then loads is still written into the closed overlay.
   */
  lemma CloseWhileLoading(v: View, img: Image, chosen: Result<string, string>)
    ensures !Settled(Close(Opening(v, img)), chosen).open
    ensures chosen.Ok? ==> Settled(Close(Opening(v, img)), chosen).imgSrc == chosen.value
  {
  }

  /** The overlay, its stage, image and caption, and the body's overflow style. */
  class Overlay {
    var open: bool
    var loading: bool
    var imgSrc: string
    var caption: string
    var zoom: real
    var panX: real
    var panY: real
    var grabbable: bool
    var bodyOverflow: string

    function Current(): View
      reads this
    {
      View(open, loading, imgSrc, caption, zoom, panX, panY, grabbable, bodyOverflow)
    }

    /** The overlay as built on page load: closed, empty, at zoom 1. */
    constructor (bodyOverflow: string)
      ensures Current() == View(false, false, "", "", 1.0, 0.0, 0.0, false, bodyOverflow)
    {
      open := false;
      loading := false;
      imgSrc := "";
      caption := "";
      zoom, panX, panY := 1.0, 0.0, 0.0;
      grabbable := false;
      this.bodyOverflow := bodyOverflow;
    }

    /** `applyTransform`: the stage is grabbable exactly when zoomed in. */
    method ApplyTransform()
      modifies this`grabbable
      ensures grabbable == (zoom > 1.0)
    {
      grabbable := zoom > 1.0;
    }

    method BeginOpen(img: Image)
      modifies this
      ensures Current() == Opening(old(Current()), img)
    {
      zoom := 1.0; panX := 0.0; panY := 0.0;
      ApplyTransform();
      imgSrc := "";
      caption := Caption(img);
      loading := true;
      open := true;
      bodyOverflow := "hidden";
    }

    method FinishOpen(chosen: Result<string, string>)
      modifies this
      ensures Current() == Settled(old(Current()), chosen)
    {
      if chosen.Ok? {
        imgSrc := chosen.value;
      }
      loading := false;
      zoom := 1.0; panX := 0.0; panY := 0.0;
      ApplyTransform();
    }

    /** `openLightboxFor`: reset and show, choose the source, then settle. */
    method OpenLightboxFor(img: Image, loadable: set<string>)
      modifies this
      ensures Current() == Open(old(Current()), img, loadable)
    {
      BeginOpen(img);
      var best, tried := ChooseBestSrc(img, loadable);
      FinishOpen(best);
    }

    /** `closeLightbox` */
    method CloseLightbox()
      modifies this
      ensures Current() == Close(old(Current()))
    {
      open := false;
      bodyOverflow := "";
      imgSrc := "";
      caption := "";
    }

    /** A click on the overlay closes it only on the backdrop or the close button. */
    method OnOverlayClick(targetId: string)
      modifies this
      ensures Current() == if targetId == "lb-backdrop" || targetId == "lb-close" then Close(old(Current())) else old(Current())
    {
      if targetId == "lb-backdrop" || targetId == "lb-close" {
        CloseLightbox();
      }
    }

    /** Escape ('Escape' or 'Esc') closes the overlay, and only when it is open. */
    method OnKeyDown(key: string)
      modifies this
      ensures Current() == if old(open) && (key == "Escape" || key == "Esc") then Close(old(Current())) else old(Current())
    {
      if open && (key == "Escape" || key == "Esc") {
        CloseLightbox();
      }
    }

    /** A click inside '#main': open the selected image, if any. */
    method OnMainClick(path: seq<Node>, loadable: set<string>)
      modifies this
      ensures SelectImage(path).None? ==> Current() == old(Current())
      ensures SelectImage(path).Some? ==> Current() == Open(old(Current()), SelectImage(path).value, loadable)
    {
      var img := SelectImage(path);
      if img.None? {
        return;
      }
      OpenLightboxFor(img.value, loadable);
    }
  }
}
