/** The palette loader: icon files are read in sorted filename order, and each
    readable icon gets a colour chosen by keywords in its filename. */
module Palette {
  import opened Common

  // ---------------- filename -> colour ----------------

  /** `str.lower()` on the ASCII letters. */
  function Lower(s: string): (r: string)
    ensures |r| == |s|
    ensures forall i :: 0 <= i < |s| ==> r[i] == LowerChar(s[i])
  {
    seq(|s|, i requires 0 <= i < |s| => LowerChar(s[i]))
  }

  function LowerChar(c: char): (d: char)
    ensures 'A' <= c <= 'Z' ==> 'a' <= d <= 'z' && d as int - 'a' as int == c as int - 'A' as int
    ensures !('A' <= c <= 'Z') ==> d == c
  {
    if 'A' <= c <= 'Z' then (c as int - 'A' as int + 'a' as int) as char else c
  }

  /** Lowering twice is lowering once. */
  lemma LowerIdempotent(s: string)
    ensures Lower(Lower(s)) == Lower(s)
  {
    assert forall i :: 0 <= i < |s| ==> LowerChar(LowerChar(s[i])) == LowerChar(s[i]);
  }

  /** Python's `w in s` for strings: `w` occurs as a contiguous piece of `s`. */
  predicate Contains(s: string, w: string)
    ensures w == [] ==> Contains(s, w)
    decreases |s|
  {
    |w| <= |s| && (s[..|w|] == w || Contains(s[1..], w))
  }

  /** `w` occurs in `s` starting at offset `k`. */
  predicate OccursAt(s: string, w: string, k: int)
  {
    0 <= k && k + |w| <= |s| && s[k..k + |w|] == w
  }

  /** A piece of `s` at offset `k` is found by `Contains`. */
  lemma {:induction false} ContainsAt(s: string, w: string, k: nat)
    requires OccursAt(s, w, k)
    ensures Contains(s, w)
    decreases k
  {
    if k > 0 {
      assert s[1..][k - 1..k - 1 + |w|] == s[k..k + |w|];
      assert OccursAt(s[1..], w, k - 1);
      ContainsAt(s[1..], w, k - 1);
      assert |w| <= |s| && Contains(s[1..], w);
    } else {
      assert s[..|w|] == w;
    }
  }

  /** `Contains` holds exactly when `w` occurs at some offset. */
  lemma {:induction false} ContainsIffOccurs(s: string, w: string)
    ensures Contains(s, w) <==> exists k :: OccursAt(s, w, k)
    decreases |s|
  {
    if Contains(s, w) {
      if s[..|w|] == w {
        assert OccursAt(s, w, 0);
      } else {
        ContainsIffOccurs(s[1..], w);
        var k :| OccursAt(s[1..], w, k);
        assert s[1..][k..k + |w|] == s[k + 1..k + 1 + |w|];
        assert OccursAt(s, w, k + 1);
      }
    }
    if exists k :: OccursAt(s, w, k) {
      var k :| OccursAt(s, w, k);
      ContainsAt(s, w, k);
    }
  }

  /** The colour a palette icon stands for, decided from its lowercased filename:
      the first keyword of "red", "green", "blue" found wins; "eraser" and every
      other name give black, the eraser colour. */
  function ColorOf(filename: string): (c: Bgr)
    ensures c == Red <==> Contains(Lower(filename), "red")
    ensures c == Green <==> !Contains(Lower(filename), "red") && Contains(Lower(filename), "green")
    ensures c == Blue <==>
      !Contains(Lower(filename), "red") && !Contains(Lower(filename), "green") && Contains(Lower(filename), "blue")
    ensures c == Black <==>
      !Contains(Lower(filename), "red") && !Contains(Lower(filename), "green") && !Contains(Lower(filename), "blue")
  {
    var name := Lower(filename);
    if Contains(name, "red") then Red
    else if Contains(name, "green") then Green
    else if Contains(name, "blue") then Blue
    else if Contains(name, "eraser") then Black  // the eraser
    else Black
  }

  /** The keywords are matched without regard to case. */
  lemma ColorOfIgnoresCase(filename: string)
    ensures ColorOf(Lower(filename)) == ColorOf(filename)
  {
    LowerIdempotent(filename);
  }

  // ---------------- sorted(os.listdir(...)) ----------------

  /** Python's string order: code point by code point, a proper prefix first. */
  predicate NameLe(a: string, b: string)
    ensures a <= b ==> NameLe(a, b)
  {
    if a == [] then true
    else if b == [] then false
    else if a[0] != b[0] then a[0] < b[0]
    else NameLe(a[1..], b[1..])
  }

  lemma {:induction false} NameLeTotal(a: string, b: string)
    ensures NameLe(a, b) || NameLe(b, a)
  {
    if a != [] && b != [] && a[0] == b[0] {
      NameLeTotal(a[1..], b[1..]);
    }
  }

  /** Two names that each sort no later than the other are the same name. */
  lemma {:induction false} NameLeAntisymmetric(a: string, b: string)
    requires NameLe(a, b) && NameLe(b, a)
    ensures a == b
  {
    if a != [] && b != [] {
      NameLeAntisymmetric(a[1..], b[1..]);
      assert a == [a[0]] + a[1..] && b == [b[0]] + b[1..];
    }
  }

  lemma {:induction false} NameLeTrans(a: string, b: string, c: string)
    requires NameLe(a, b) && NameLe(b, c)
    ensures NameLe(a, c)
  {
    if a != [] && a[0] == b[0] && b[0] == c[0] {
      NameLeTrans(a[1..], b[1..], c[1..]);
    }
  }

  predicate SortedNames(s: seq<string>)
  {
    forall i :: 0 < i < |s| ==> NameLe(s[i - 1], s[i])
  }

  function Insert(x: string, s: seq<string>): (r: seq<string>)
    requires SortedNames(s)
    ensures SortedNames(r)
    ensures multiset(r) == multiset(s) + multiset{x}
    ensures |r| == |s| + 1 && (r[0] == x || (s != [] && r[0] == s[0]))
  {
    if s == [] then [x]
    else if NameLe(x, s[0]) then [x] + s
    else
      NameLeTotal(x, s[0]);
      var t := Insert(x, s[1..]);
      assert s == [s[0]] + s[1..];
      [s[0]] + t
  }

  /** `sorted(names)`: the same names, in ascending order. */
  function Sort(names: seq<string>): (r: seq<string>)
    ensures SortedNames(r)
    ensures multiset(r) == multiset(names)
  {
    if names == [] then []
    else
      var r := Insert(names[|names| - 1], Sort(names[..|names| - 1]));
      assert names == names[..|names| - 1] + [names[|names| - 1]];
      r
  }

  // ---------------- the loader loop ----------------

  /** In a sorted list every name sorts no later than every name after it. */
  lemma {:induction false} SortedAll(s: seq<string>, i: nat, j: nat)
    requires SortedNames(s) && i <= j < |s|
    ensures NameLe(s[i], s[j])
    decreases j - i
  {
    if i < j {
      SortedAll(s, i, j - 1);
      NameLeTrans(s[i], s[j - 1], s[j]);
    }
  }

  /** The files that `read` can open, in their listing order. */
  function Readable<Img>(files: seq<string>, read: string -> Option<Img>): (r: seq<string>)
    ensures |r| <= |files|
  {
    if files == [] then []
    else
      var last := files[|files| - 1];
      var front := Readable(files[..|files| - 1], read);
      if read(last).Some? then front + [last] else front
  }

  /** The kept files are exactly the readable files of the listing. */
  lemma {:induction false} ReadableMembers<Img>(files: seq<string>, read: string -> Option<Img>)
    ensures forall k :: 0 <= k < |Readable(files, read)| ==>
      read(Readable(files, read)[k]).Some? && Readable(files, read)[k] in files
    ensures forall f :: f in files && read(f).Some? ==> f in Readable(files, read)
  {
    if files != [] {
      var front := files[..|files| - 1];
      ReadableMembers(front, read);
      assert forall f :: f in files ==> f in front || f == files[|files| - 1];
    }
  }

  /** Each readable file is kept exactly as many times as it is listed; an
      unreadable one not at all. */
  lemma {:induction false} ReadableCount<Img>(files: seq<string>, read: string -> Option<Img>, f: string)
    ensures multiset(Readable(files, read))[f] == if read(f).Some? then multiset(files)[f] else 0
  {
    if files != [] {
      var front := files[..|files| - 1];
      var last := files[|files| - 1];
      ReadableCount(front, read, f);
      assert files == front + [last];
    }
  }

  lemma SortedSnoc(s: seq<string>, x: string)
    requires SortedNames(s) && (s != [] ==> NameLe(s[|s| - 1], x))
    ensures SortedNames(s + [x])
  {
    var t := s + [x];
    forall i | 0 < i < |t| ensures NameLe(t[i - 1], t[i]) {
      if i < |s| { assert t[i - 1] == s[i - 1] && t[i] == s[i]; }
    }
  }

  lemma SortedFront(s: seq<string>)
    requires SortedNames(s) && s != []
    ensures SortedNames(s[..|s| - 1])
  {
    var t := s[..|s| - 1];
    forall i | 0 < i < |t| ensures NameLe(t[i - 1], t[i]) {
      assert t[i - 1] == s[i - 1] && t[i] == s[i];
    }
  }

  /** Dropping the unreadable files keeps a sorted listing sorted. */
  lemma {:induction false} ReadableSorted<Img>(files: seq<string>, read: string -> Option<Img>)
    requires SortedNames(files)
    ensures SortedNames(Readable(files, read))
  {
    if files != [] {
      var n := |files|;
      var last := files[n - 1];
      var front := Readable(files[..n - 1], read);
      SortedFront(files);
      ReadableSorted(files[..n - 1], read);
      ReadableMembers(files[..n - 1], read);
      if read(last).Some? {
        if front != [] {
          var f := front[|front| - 1];
          assert f in files[..n - 1];
          var i :| 0 <= i < n - 1 && files[..n - 1][i] == f;
          SortedAll(files, i, n - 1);
        }
        SortedSnoc(front, last);
      }
    }
  }

  lemma ReadableSnoc<Img>(files: seq<string>, i: nat, read: string -> Option<Img>)
    requires i < |files|
    ensures Readable(files[..i + 1], read) ==
      Readable(files[..i], read) + (if read(files[i]).Some? then [files[i]] else [])
  {
    assert files[..i + 1][..i] == files[..i];
  }

  /** What the loader leaves behind: nothing usable (the program then exits), or
      the images and colours, one colour per image. */
  datatype LoadResult<Img> = NoPalette | Loaded(images: seq<Img>, colors: seq<Bgr>)

  /** The icons the loader keeps: the readable files of the sorted listing, or
      none when the palette folder does not exist. */
  function KeptIcons<Img>(folderExists: bool, listing: seq<string>, read: string -> Option<Img>): (r: seq<string>)
    ensures SortedNames(r)
    ensures forall k :: 0 <= k < |r| ==> read(r[k]).Some? && r[k] in listing
    ensures folderExists ==> forall f :: f in listing && read(f).Some? ==> f in r
    ensures folderExists ==> forall f :: multiset(r)[f] == (if read(f).Some? then multiset(listing)[f] else 0)
    ensures !folderExists ==> r == []
  {
    if folderExists then
      var sorted := Sort(listing);
      ReadableSorted(sorted, read);
      ReadableMembers(sorted, read);
      forall f ensures multiset(Readable(sorted, read))[f] == (if read(f).Some? then multiset(listing)[f] else 0) {
        ReadableCount(sorted, read, f);
      }
      assert forall f :: f in sorted <==> f in listing by {
        forall f ensures f in sorted <==> f in listing {
          assert f in sorted <==> f in multiset(sorted);
          assert f in listing <==> f in multiset(listing);
        }
      }
      Readable(sorted, read)
    else []
  }

  /** Loads the palette. `read` stands for `cv2.imread` on the file of that name
      inside the palette folder; `None` is an unreadable file. */
  method LoadPalette<Img>(folderExists: bool, listing: seq<string>, read: string -> Option<Img>)
    returns (r: LoadResult<Img>)
    ensures r.NoPalette? <==> KeptIcons(folderExists, listing, read) == []
    ensures r.Loaded? ==>
      var kept := KeptIcons(folderExists, listing, read);
      |r.images| == |r.colors| == |kept| > 0 &&
      (forall k :: 0 <= k < |kept| ==> Some(r.images[k]) == read(kept[k])) &&
      (forall k :: 0 <= k < |kept| ==> r.colors[k] == ColorOf(kept[k]))
  {
    var images: seq<Img> := [];
    var colors: seq<Bgr> := [];
    ghost var kept: seq<string> := [];
    if folderExists {
      var files := Sort(listing);
      images, colors := ReadIcons(files, read);
      kept := Readable(files, read);
    }
    assert kept == KeptIcons(folderExists, listing, read);
    forall k | 0 <= k < |kept| ensures colors[k] == ColorOf(kept[k]) {
      ColorsOfAt(kept, k);
    }
    if |images| == 0 {
      r := NoPalette;
    } else {
      r := Loaded(images, colors);
    }
  }

  /** The colour of each name, in order. */
  function ColorsOf(names: seq<string>): (r: seq<Bgr>)
    ensures |r| == |names|
  {
    if names == [] then [] else ColorsOf(names[..|names| - 1]) + [ColorOf(names[|names| - 1])]
  }

  lemma ColorsOfAt(names: seq<string>, k: nat)
    requires k < |names|
    ensures ColorsOf(names)[k] == ColorOf(names[k])
  {
    if k < |names| - 1 {
      ColorsOfAt(names[..|names| - 1], k);
    }
  }

  /** The loop over the sorted listing: every file that can be read adds its
      image and its colour; the others are skipped. */
  method ReadIcons<Img>(files: seq<string>, read: string -> Option<Img>)
    returns (images: seq<Img>, colors: seq<Bgr>)
    ensures |images| == |colors| == |Readable(files, read)|
    ensures forall k :: 0 <= k < |images| ==> Some(images[k]) == read(Readable(files, read)[k])
    ensures colors == ColorsOf(Readable(files, read))
  {
    images, colors := [], [];
    assert files[..0] == [];
    ghost var kept: seq<string> := [];
    for i := 0 to |files|
      invariant kept == Readable(files[..i], read)
      invariant |images| == |colors| == |kept|
      invariant forall k :: 0 <= k < |kept| ==> Some(images[k]) == read(kept[k])
      invariant colors == ColorsOf(kept)
    {
      ReadableSnoc(files, i, read);
      var img := read(files[i]);
      if img.None? {
        continue;
      }
      images := images + [img.value];
      colors := colors + [ColorOf(files[i])];
      assert (kept + [files[i]])[..|kept|] == kept;
      kept := kept + [files[i]];
    }
    assert files[..|files|] == files;
  }
}
