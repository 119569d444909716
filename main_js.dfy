/**
 * Page behaviour shared by every screen: the image lightbox with its wrap-around navigation
 * and counter, the client-side check of a chosen upload, and the comments show/hide toggle.
 */
module MainJs {
  import opened Wrappers
  import opened Strings

  /** JavaScript's `%` on integers: the remainder takes the sign of the dividend. */
  function JsRem(a: int, n: int): (r: int)
    requires n > 0
    ensures a >= 0 ==> r == a % n
    ensures -n < r < n
  {
    if a >= 0 then a % n else -((-a) % n)
  }

  /** Remainders of the dividends the lightbox produces, which lie between -1 and 2n - 1. */
  lemma ModFacts(a: int, n: int)
    requires n > 0
    ensures 0 <= a < n ==> a % n == a && (a + n) % n == a
  {
  }

  // ---------------------------------------------------------------- lightbox

  /** The index `lightboxNext` moves to. */
  function NextIndex(i: int, n: int): (j: int)
    requires n > 0
    ensures -1 <= i < n ==> 0 <= j < n && j == (i + 1) % n
    ensures -1 <= i < n ==> j == if i + 1 < n then i + 1 else 0
  {
    ModFacts(i + 1, n);
    ModFacts(0, n);
    JsRem(i + 1, n)
  }

  /** The index `lightboxPrev` moves to. */
  function PrevIndex(i: int, n: int): (j: int)
    requires n > 0
    ensures 0 <= i < n ==> 0 <= j < n && j == (i - 1 + n) % n
    ensures 0 <= i < n ==> j == if i == 0 then n - 1 else i - 1
  {
    ModFacts(i - 1, n);
    JsRem(i - 1 + n, n)
  }

  /** Forward then back, or back then forward, returns to the same picture. */
  lemma NextPrevInverse(i: int, n: int)
    requires 0 <= i < n
    ensures PrevIndex(NextIndex(i, n), n) == i
    ensures NextIndex(PrevIndex(i, n), n) == i
  {
  }

  /** k steps forward from i. */
  function StepsForward(i: int, n: int, k: nat): int
    requires n > 0
  {
    if k == 0 then i else NextIndex(StepsForward(i, n, k - 1), n)
  }

  /** Up to n steps forward from i count on from i and wrap past the last picture to 0. */
  lemma {:induction false} StepsForwardWraps(i: int, n: int, k: nat)
    requires 0 <= i < n && k <= n
    ensures StepsForward(i, n, k) == if i + k < n then i + k else i + k - n
  {
    if k > 0 {
      StepsForwardWraps(i, n, k - 1);
    }
  }

  /** n steps forward go once round the gallery and back to the start. */
  lemma FullCircle(i: int, n: int)
    requires 0 <= i < n
    ensures StepsForward(i, n, n) == i
  {
    StepsForwardWraps(i, n, n);
  }

  /** The counter `<position> / <total>`, shown only for more than one picture. */
  datatype Counter = NoCounter | Shown(position: int, total: int)

  function CounterFor(index: int, n: int): (c: Counter)
    ensures c.Shown? <==> n > 1
    ensures c.Shown? ==> c.position == index + 1 && c.total == n
  {
    if n > 1 then Shown(index + 1, n) else NoCounter
  }

  /** After any move through a gallery of two or more pictures, the counter shows 1 to n. */
  lemma CounterInRangeAfterMove(i: int, n: int)
    requires n > 1 && -1 <= i < n
    ensures 1 <= CounterFor(NextIndex(i, n), n).position <= n
    ensures 0 <= i ==> 1 <= CounterFor(PrevIndex(i, n), n).position <= n
  {
  }

  /** `currentLightboxIndex` and `lightboxImages`. */
  class Lightbox {
    var images: seq<string>
    var index: int

    constructor ()
      ensures images == [] && index == 0
    {
      images, index := [], 0;
    }

    /**
     * `openLightbox(src, images)`: with a list, the list and the first position of src in
     * it (-1 when absent); without one, src alone at position 0.
     */
    method Open(src: string, list: Option<seq<string>>)
      modifies this
      ensures list.Some? ==> images == list.value && index == IndexOf(list.value, src)
      ensures list.Some? && src in list.value ==> images[index] == src
      ensures list.Some? && src !in list.value ==> index == -1
      ensures list.None? ==> images == [src] && index == 0
    {
      match list
      case Some(xs) =>
        images := xs;
        index := IndexOf(xs, src);
      case None =>
        images := [src];
        index := 0;
    }

    /** `lightboxNext`. */
    method Next()
      requires |images| > 0
      modifies this
      ensures images == old(images) && index == NextIndex(old(index), |images|)
    {
      index := JsRem(index + 1, |images|);
    }

    /** `lightboxPrev`. */
    method Prev()
      requires |images| > 0
      modifies this
      ensures images == old(images) && index == PrevIndex(old(index), |images|)
    {
      index := JsRem(index - 1 + |images|, |images|);
    }
  }

  // ---------------------------------------------------------------- upload check

  datatype File = File(mimeType: string, size: int)

  /** What `validateFileUpload` accepts: no file at all, or an allowed type within the size limit. */
  predicate UploadAccepted(file: Option<File>, allowedTypes: seq<string>, maxSize: int) {
    file.None? || (file.value.mimeType in allowedTypes && file.value.size <= maxSize)
  }

  /** The file input of a form; `value := ''` empties its selection. */
  class FileInput {
    var file: Option<File>

    constructor (f: Option<File>)
      ensures file == f
    {
      file := f;
    }

    /** `validateFileUpload`: on refusal the input is cleared (the alert is not modelled). */
    method Validate(allowedTypes: seq<string>, maxSize: int) returns (ok: bool)
      modifies this
      ensures ok == UploadAccepted(old(file), allowedTypes, maxSize)
      ensures ok ==> file == old(file)
      ensures !ok ==> file.None?
    {
      if file.None? {
        return true;
      }
      var f := file.value;
      if f.mimeType !in allowedTypes {
        file := None;
        return false;
      }
      if f.size > maxSize {
        file := None;
        return false;
      }
      return true;
    }
  }

  /** A file of exactly the limit passes; one byte more does not; a wrong type never does. */
  lemma UploadLimitIsInclusive(t: string, allowedTypes: seq<string>, maxSize: int)
    requires t in allowedTypes
    ensures UploadAccepted(Some(File(t, maxSize)), allowedTypes, maxSize)
    ensures !UploadAccepted(Some(File(t, maxSize + 1)), allowedTypes, maxSize)
    ensures forall u, s :: u !in allowedTypes ==> !UploadAccepted(Some(File(u, s)), allowedTypes, maxSize)
  {
  }

  // ---------------------------------------------------------------- comments toggle

  /** `display === 'none' ? 'block' : 'none'` */
  function FlipDisplay(display: string): (d: string)
    ensures d == "block" <==> display == "none"
    ensures d == "none" || d == "block"
  {
    if display == "none" then "block" else "none"
  }

  /** On the two values it produces the flip is its own inverse; anything else is hidden first. */
  lemma FlipDisplayInvolution(display: string)
    ensures display in {"none", "block"} ==> FlipDisplay(FlipDisplay(display)) == display
    ensures display !in {"none", "block"} ==> FlipDisplay(display) == "none"
  {
  }

  /** The `style.display` of a post's comments section. */
  class CommentsSection {
    var display: string

    constructor (d: string)
      ensures display == d
    {
      display := d;
    }

    /** `toggleComments` of the page script. */
    method Toggle()
      modifies this
      ensures display == FlipDisplay(old(display))
    {
      display := if display == "none" then "block" else "none";
    }
  }
}
