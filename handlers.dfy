/**
 * The selection logic inside the read-side handlers: the positional scan of
 * getItemByID, the category filter and reply of searchItems, and the path
 * decision of getImg.
 */
module Handlers {
  import opened Http
  import opened Decimal
  import opened ImageName

  // ---------------------------------------------------------------- getItemByID

  /**
   * The scan of getItemByID: the first element whose 1-based position renders
   * as `id`. Since renderings are distinct there is at most one.
   */
  method SelectByPosition(list: seq<Item>, id: string) returns (r: Response)
    ensures forall k: nat :: 1 <= k <= |list| && Itoa(k) == id ==> r == Response(StatusOK, Record(list[k - 1]))
    ensures (forall k: nat :: 1 <= k <= |list| ==> Itoa(k) != id) ==> r == Response(StatusNotFound, Message(NotFoundMessage))
  {
    var i := 0;
    while i < |list|
      invariant 0 <= i <= |list|
      invariant forall k: nat :: 1 <= k <= i ==> Itoa(k) != id
    {
      if Itoa(i + 1) == id {
        forall k: nat | 1 <= k <= |list| && Itoa(k) == id ensures k == i + 1 {
          ItoaInjective(k, i + 1);
        }
        return Response(StatusOK, Record(list[i]));
      }
      i := i + 1;
    }
    return Response(StatusNotFound, Message(NotFoundMessage));
  }

  // ---------------------------------------------------------------- searchItems

  /** The listed items whose category equals `keyword`, in list order. */
  function WithCategory(list: seq<Item>, keyword: string): (r: seq<Item>)
    ensures |r| <= |list|
    ensures forall i :: 0 <= i < |r| ==> r[i].category == keyword
  {
    if list == [] then []
    else
      var last := list[|list| - 1];
      WithCategory(list[..|list| - 1], keyword) + (if last.category == keyword then [last] else [])
  }

  /** `a` is `b` with some elements left out, order kept. */
  predicate IsSubsequence<T(==)>(a: seq<T>, b: seq<T>)
    decreases |b|
  {
    if b == [] then a == []
    else
      IsSubsequence(a, b[..|b| - 1]) ||
      (a != [] && a[|a| - 1] == b[|b| - 1] && IsSubsequence(a[..|a| - 1], b[..|b| - 1]))
  }

  /** The loop of searchItems that accumulates searchedItem. */
  method FilterByCategory(list: seq<Item>, keyword: string) returns (found: seq<Item>)
    ensures found == WithCategory(list, keyword)
  {
    found := [];
    var i := 0;
    while i < |list|
      invariant 0 <= i <= |list|
      invariant found == WithCategory(list[..i], keyword)
    {
      assert list[..i + 1][..i] == list[..i];
      if keyword == list[i].category {
        found := found + [list[i]];
      }
      i := i + 1;
    }
    assert list[..i] == list;
  }

  /** An item is found exactly when it is listed and its category is `keyword`. */
  lemma {:induction false} WithCategoryMembers(list: seq<Item>, keyword: string, x: Item)
    ensures x in WithCategory(list, keyword) <==> x in list && x.category == keyword
  {
    if list != [] {
      var init := list[..|list| - 1];
      WithCategoryMembers(init, keyword, x);
      assert list == init + [list[|list| - 1]];
    }
  }

  /** The search result keeps the list's order: it is a subsequence of the list. */
  lemma {:induction false} WithCategorySubsequence(list: seq<Item>, keyword: string)
    ensures IsSubsequence(WithCategory(list, keyword), list)
  {
    if list != [] {
      var init, last := list[..|list| - 1], list[|list| - 1];
      WithCategorySubsequence(init, keyword);
      var found := WithCategory(list, keyword);
      if last.category == keyword {
        assert found[..|found| - 1] == WithCategory(init, keyword);
      } else {
        assert found == WithCategory(init, keyword);
      }
    }
  }

  /** Searching a concatenation searches each part. */
  lemma {:induction false} WithCategoryAppend(a: seq<Item>, b: seq<Item>, keyword: string)
    ensures WithCategory(a + b, keyword) == WithCategory(a, keyword) + WithCategory(b, keyword)
    decreases |b|
  {
    if b == [] {
      assert a + b == a;
    } else {
      var b' := b[..|b| - 1];
      assert (a + b)[..|a + b| - 1] == a + b';
      assert (a + b)[|a + b| - 1] == b[|b| - 1];
      WithCategoryAppend(a, b', keyword);
    }
  }

  /**
   * The reply of searchItems as written: status 404 in both branches; the
   * body is the matches when there are any, the "Not found" message otherwise.
   */
  function SearchReply(found: seq<Item>): (r: Response)
    ensures r.status == StatusNotFound
    ensures r.body.Records? <==> |found| > 0
    ensures r.body.Records? ==> r.body.items == found
    ensures !r.body.Records? ==> r.body == Message(NotFoundMessage)
  {
    if |found| != 0 then Response(StatusNotFound, Records(found))
    else Response(StatusNotFound, Message(NotFoundMessage))
  }

  /**
   * The reply as written differs from the intended one exactly when there
   * are matches: it reports them with status 404 instead of 200.
   */
  lemma MatchesReportedAsNotFound(found: seq<Item>)
    ensures SearchReply(found) != IntendedSearchReply(found) <==> |found| > 0
    ensures |found| > 0 ==> SearchReply(found) == Response(StatusNotFound, Records(found))
    ensures |found| > 0 ==> IntendedSearchReply(found) == Response(StatusOK, Records(found))
  {
  }

  /** The reply the search evidently intends: 200 with the matches, 404 only when there are none. */
  function IntendedSearchReply(found: seq<Item>): (r: Response)
    ensures r.status == StatusOK <==> |found| > 0
    ensures r.status == StatusNotFound <==> |found| == 0
    ensures r.status == StatusOK ==> r.body == Records(found)
    ensures r.status == StatusNotFound ==> r.body == Message(NotFoundMessage)
  {
    if |found| != 0 then Response(StatusOK, Records(found))
    else Response(StatusNotFound, Message(NotFoundMessage))
  }

  // ---------------------------------------------------------------- getImg

  const ImgDir: string := "images"

  /** path.Join(ImgDir, "default.jpg"). */
  const DefaultImagePath: string := "images/default.jpg"

  const NotJpgMessage: string := "Image path does not end with .jpg"

  /** strings.HasSuffix. */
  predicate HasSuffix(s: string, suffix: string)
  {
    |s| >= |suffix| && s[|s| - |suffix|..] == suffix
  }

  /**
   * path.Join(ImgDir, name) for a name without '/', which is what a single
   * route segment is: Join drops an empty element and cleans "." and "..".
   */
  function JoinImgDir(name: string): (p: string)
    requires '/' !in name
    ensures HasSuffix(p, Suffix) <==> HasSuffix(name, Suffix)
    ensures HasSuffix(p, Suffix) ==> p == ImgDir + "/" + name
  {
    if name == "" || name == "." then ImgDir
    else if name == ".." then "."
    else
      var p := ImgDir + "/" + name;
      assert HasSuffix(p, Suffix) <==> HasSuffix(name, Suffix) by {
        if |name| >= |Suffix| {
          assert p[|p| - |Suffix|..] == name[|name| - |Suffix|..];
        } else {
          var j := |p| - |name| - 1;
          var tail := p[|p| - |Suffix|..];
          assert tail[j - (|p| - |Suffix|)] == '/';
          assert forall k :: 0 <= k < |Suffix| ==> Suffix[k] != '/';
          assert tail != Suffix;
        }
      }
      p
  }

  /**
   * getImg: a name without the ".jpg" suffix is refused with 400; otherwise
   * the file under images/ is served if it exists and the default image if
   * it does not. `existing` is the set of paths os.Stat finds.
   */
  function GetImg(name: string, existing: set<string>): (r: Response)
    requires '/' !in name
    ensures r.status == StatusBadRequest <==> !HasSuffix(name, Suffix)
    ensures r.status == StatusBadRequest ==> r.body == Message(NotJpgMessage)
    ensures r.status != StatusBadRequest ==>
      r.status == StatusOK &&
      r.body == FileAt(if ImgDir + "/" + name in existing then ImgDir + "/" + name else DefaultImagePath)
    ensures r.body.FileAt? ==> HasSuffix(r.body.path, Suffix) && r.body.path[..|ImgDir| + 1] == ImgDir + "/"
  {
    var imgPath := JoinImgDir(name);
    DefaultImageShape();
    if !HasSuffix(imgPath, Suffix) then Response(StatusBadRequest, Message(NotJpgMessage))
    else if imgPath !in existing then Response(StatusOK, FileAt(DefaultImagePath))
    else
      assert imgPath[..|ImgDir| + 1] == ImgDir + "/";
      Response(StatusOK, FileAt(imgPath))
  }

  lemma DefaultImageShape()
    ensures HasSuffix(DefaultImagePath, Suffix)
    ensures DefaultImagePath[..|ImgDir| + 1] == ImgDir + "/"
  {
    assert DefaultImagePath == ImgDir + "/" + "default" + Suffix;
  }

  /** Every name addItem stores is accepted by getImg and looked up under images/. */
  lemma StoredNamesAreServed(d: Digest, existing: set<string>)
    ensures '/' !in StoredName(d)
    ensures var name := StoredName(d);
      GetImg(name, existing) ==
        Response(StatusOK, FileAt(if ImgDir + "/" + name in existing then ImgDir + "/" + name else DefaultImagePath))
  {
    var name := StoredName(d);
    assert name[|name| - |Suffix|..] == name[64..];
  }
}
