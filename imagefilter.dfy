/** Which folder entries count as images, and the order-preserving filter that keeps them. */
module ImageFilter {
  import opened Wrappers
  import opened Strings
  import opened Folders

  /** IMAGE_EXTENSIONS. */
  const ImageExtensions: seq<string> := ["jpg", "jpeg", "png"]

  /** `IMAGE_EXTENSIONS.any { ext -> name.lowercase().endsWith(".$ext") }`. */
  predicate HasImageExtension(name: string) {
    exists ext | ext in ImageExtensions :: EndsWith(Lower(name), "." + ext)
  }

  /** `type?.startsWith("image/") == true`: a null MIME type is not an image type. */
  predicate IsImageMime(mimeType: Option<string>) {
    mimeType.Some? && StartsWith(mimeType.value, "image/")
  }

  /** The filter applied to a document tree's children. */
  predicate IsTreeImage(d: Document) {
    d.isFile && (IsImageMime(d.mimeType) || (d.name.Some? && HasImageExtension(d.name.value)))
  }

  /** The filter applied to a folder's java.io.File children: the MIME type plays no part. */
  predicate IsLegacyImage(e: DiskEntry) {
    e.isFile && HasImageExtension(FileName(e.path))
  }

  /** Kotlin's `filter`: the elements satisfying p, in their original order. */
  function Filter<T(==,!new)>(p: T -> bool, s: seq<T>): (r: seq<T>)
    ensures |r| <= |s|
    ensures forall x :: x in r <==> x in s && p(x)
    ensures forall x :: multiset(r)[x] == if p(x) then multiset(s)[x] else 0
    decreases |s|
  {
    if s == [] then []
    else
      var head := if p(s[0]) then [s[0]] else [];
      var rest := Filter(p, s[1..]);
      assert s == [s[0]] + s[1..];
      assert multiset(s) == multiset([s[0]]) + multiset(s[1..]);
      assert multiset(head + rest) == multiset(head) + multiset(rest);
      head + rest
  }

  /** Filtering a sequence whose every element already satisfies p changes nothing. */
  lemma {:induction false} FilterKeepsAll<T(!new)>(p: T -> bool, s: seq<T>)
    requires forall x | x in s :: p(x)
    ensures Filter(p, s) == s
    decreases |s|
  {
    if s != [] {
      assert s == [s[0]] + s[1..];
      assert forall x | x in s[1..] :: x in s;
      assert Filter(p, s) == [s[0]] + Filter(p, s[1..]);
      FilterKeepsAll(p, s[1..]);
    }
  }

  /** r keeps some elements of s, in the order s has them. */
  predicate IsSubsequence<T(==)>(r: seq<T>, s: seq<T>)
    decreases |s|
  {
    if r == [] then true
    else if s == [] then false
    else if r[0] == s[0] then IsSubsequence(r[1..], s[1..])
    else IsSubsequence(r, s[1..])
  }

  lemma {:induction false} FilterIsSubsequence<T(!new)>(p: T -> bool, s: seq<T>)
    ensures IsSubsequence(Filter(p, s), s)
    decreases |s|
  {
    if s != [] {
      FilterIsSubsequence(p, s[1..]);
      var rest := Filter(p, s[1..]);
      if p(s[0]) {
        assert ([s[0]] + rest)[1..] == rest;
      } else {
        assert Filter(p, s) == rest;
        SubsequenceConsRight(rest, s[1..], s[0]);
        assert [s[0]] + s[1..] == s;
      }
    }
  }

  /** Putting one more element in front of s keeps r a subsequence of it. */
  lemma {:induction false} SubsequenceConsRight<T>(r: seq<T>, s: seq<T>, x: T)
    requires IsSubsequence(r, s)
    ensures IsSubsequence(r, [x] + s)
    decreases |s|, 1
  {
    assert ([x] + s)[1..] == s;
    if r != [] && r[0] == x {
      SubsequenceTail(r, s);
    }
  }

  /** Dropping the first element of r keeps it a subsequence of s. */
  lemma {:induction false} SubsequenceTail<T>(r: seq<T>, s: seq<T>)
    requires r != [] && IsSubsequence(r, s)
    ensures IsSubsequence(r[1..], s)
    decreases |s|, 0
  {
    if r[0] == s[0] {
      SubsequenceConsRight(r[1..], s[1..], s[0]);
    } else {
      SubsequenceTail(r, s[1..]);
      SubsequenceConsRight(r[1..], s[1..], s[0]);
    }
    assert [s[0]] + s[1..] == s;
  }

  /**
   * The document-tree filter keeps exactly the files whose MIME type starts with
   * "image/" or whose name has an image extension, never a directory, in order.
   */
  function TreeImages(children: seq<Document>): (r: seq<Document>)
    ensures forall d :: d in r <==>
      (d in children && d.isFile && (IsImageMime(d.mimeType) || (d.name.Some? && HasImageExtension(d.name.value))))
    ensures forall d :: multiset(r)[d] == if IsTreeImage(d) then multiset(children)[d] else 0
    ensures IsSubsequence(r, children)
  {
    FilterIsSubsequence(IsTreeImage, children);
    Filter(IsTreeImage, children)
  }

  /** The legacy filter keeps exactly the files whose name has an image extension, in order. */
  function LegacyImages(listing: seq<DiskEntry>): (r: seq<DiskEntry>)
    ensures forall e :: e in r <==> (e in listing && e.isFile && HasImageExtension(FileName(e.path)))
    ensures forall e :: multiset(r)[e] == if IsLegacyImage(e) then multiset(listing)[e] else 0
    ensures IsSubsequence(r, listing)
  {
    FilterIsSubsequence(IsLegacyImage, listing);
    Filter(IsLegacyImage, listing)
  }

  /** The extension test is a case-insensitive check for ".jpg", ".jpeg" or ".png" at the end. */
  lemma HasImageExtensionIff(name: string)
    ensures HasImageExtension(name) <==>
      EndsWith(Lower(name), ".jpg") || EndsWith(Lower(name), ".jpeg") || EndsWith(Lower(name), ".png")
  {
    assert "jpg" in ImageExtensions && "jpeg" in ImageExtensions && "png" in ImageExtensions;
    assert "." + "jpg" == ".jpg" && "." + "jpeg" == ".jpeg" && "." + "png" == ".png";
  }

  lemma ExtensionExamples()
    ensures HasImageExtension("A.JPG")
    ensures !HasImageExtension("x.gif")
    ensures !HasImageExtension("jpg")
  {
    var upper := "A.JPG";
    assert Lower(upper) == "a.jpg" by {
      assert forall i | 0 <= i < |upper| :: Lower(upper)[i] == LowerChar(upper[i]);
    }
    assert EndsWith(Lower(upper), "." + "jpg");
    var gif := "x.gif";
    assert Lower(gif) == gif;
    HasImageExtensionIff(gif);
    var bare := "jpg";
    assert Lower(bare) == bare;
    HasImageExtensionIff(bare);
  }

  /**
   * For a document and a file with the same name and kind, the legacy rule implies
   * the tree rule, and the two differ only on files that the MIME type alone admits.
   */
  lemma TreeRuleWidensLegacyRule(d: Document, e: DiskEntry)
    requires d.name == Some(FileName(e.path)) && d.isFile == e.isFile
    ensures IsLegacyImage(e) ==> IsTreeImage(d)
    ensures IsTreeImage(d) && !IsLegacyImage(e) ==> d.isFile && IsImageMime(d.mimeType)
  {
  }
}
