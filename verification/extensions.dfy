/** The two file-type classifiers, `/\.(jpg|jpeg|png|gif|webp)$/i` and
    `/\.json$/i`, which decide whether an entry gets a preview action and which
    kind of preview it gets. */
module Extensions {
  import opened Strings
  import opened Paths

  /** The alternatives of the image pattern, as written there (lower case). */
  const ImageExtensions: seq<string> := ["jpg", "jpeg", "png", "gif", "webp"]

  const JsonExtension: string := "json"

  /** One alternative of a `/\.ext$/i` pattern: a dot, then `ext` running to the
      end of the string, letters compared without regard to ASCII case. */
  predicate HasExtension(name: string, ext: string)
  {
    && |name| > |ext|
    && name[|name| - |ext| - 1] == '.'
    && ToLowerAscii(name[|name| - |ext|..]) == ext
  }

  predicate IsImage(name: string)
  {
    || HasExtension(name, "jpg")
    || HasExtension(name, "jpeg")
    || HasExtension(name, "png")
    || HasExtension(name, "gif")
    || HasExtension(name, "webp")
  }

  predicate IsJson(name: string)
  {
    HasExtension(name, JsonExtension)
  }

  /** One alternative read as a search: some dot is followed, up to ASCII case,
      by exactly `ext` and nothing else. */
  lemma ExtensionMeaning(name: string, ext: string)
    ensures HasExtension(name, ext) <==>
      exists i :: 0 <= i < |name| && name[i] == '.' && ToLowerAscii(name[i + 1..]) == ext
  {
    if exists i :: 0 <= i < |name| && name[i] == '.' && ToLowerAscii(name[i + 1..]) == ext {
      var i :| 0 <= i < |name| && name[i] == '.' && ToLowerAscii(name[i + 1..]) == ext;
      assert |name| - |ext| - 1 == i;
    }
    if HasExtension(name, ext) {
      var i := |name| - |ext| - 1;
      assert name[i + 1..] == name[|name| - |ext|..];
    }
  }

  /** An image name has a dot followed by an image extension. */
  lemma ImageHasDot(name: string)
    requires IsImage(name)
    ensures exists i :: 0 <= i < |name| && name[i] == '.' && ToLowerAscii(name[i + 1..]) in ImageExtensions
  {
    var ext :=
      if HasExtension(name, "jpg") then "jpg"
      else if HasExtension(name, "jpeg") then "jpeg"
      else if HasExtension(name, "png") then "png"
      else if HasExtension(name, "gif") then "gif"
      else "webp";
    assert HasExtension(name, ext);
    assert ext in ImageExtensions by {
      assert ImageExtensions[0] == "jpg" && ImageExtensions[1] == "jpeg" && ImageExtensions[2] == "png";
      assert ImageExtensions[3] == "gif" && ImageExtensions[4] == "webp";
    }
    ExtensionMeaning(name, ext);
  }

  /** A dot followed by an image extension makes an image name. */
  lemma DotMakesImage(name: string, i: int)
    requires 0 <= i < |name| && name[i] == '.' && ToLowerAscii(name[i + 1..]) in ImageExtensions
    ensures IsImage(name)
  {
    var ext := ToLowerAscii(name[i + 1..]);
    ExtensionMeaning(name, ext);
    assert HasExtension(name, ext);
  }

  /** The image test accepts exactly the names whose text after some dot is, up to
      ASCII case, one of the image extensions. */
  lemma ImageMeaning(name: string)
    ensures IsImage(name) <==>
      exists i :: 0 <= i < |name| && name[i] == '.' && ToLowerAscii(name[i + 1..]) in ImageExtensions
  {
    if IsImage(name) {
      ImageHasDot(name);
    }
    if exists i :: 0 <= i < |name| && name[i] == '.' && ToLowerAscii(name[i + 1..]) in ImageExtensions {
      var i :| 0 <= i < |name| && name[i] == '.' && ToLowerAscii(name[i + 1..]) in ImageExtensions;
      DotMakesImage(name, i);
    }
  }

  /** The JSON test accepts exactly the names whose text after some dot is `json`
      up to ASCII case. */
  lemma JsonMeaning(name: string)
    ensures IsJson(name) <==>
      exists i :: 0 <= i < |name| && name[i] == '.' && ToLowerAscii(name[i + 1..]) == JsonExtension
  {
    ExtensionMeaning(name, JsonExtension);
  }

  /** No name is both an image and a JSON document. */
  lemma ImageAndJsonExclusive(name: string)
    ensures !(IsImage(name) && IsJson(name))
  {
    var n := |name|;
    if IsJson(name) {
      var tail := ToLowerAscii(name[n - 4..]);
      assert tail == "json";
      assert LowerAscii(name[n - 4]) == 'j';
      assert name[n - 4] != '.';
      assert tail != "jpeg" && tail != "webp" by {
        assert tail[1] == 's';
      }
    }
  }

  /** A separator-led or empty head does not change what an extension test says
      about a separator-free tail. */
  lemma {:induction false} ExtensionOfTail(folder: string, file: string, ext: string)
    requires folder == [] || folder[|folder| - 1] == Sep
    requires Sep !in file && Sep !in ext
    ensures HasExtension(folder + file, ext) == HasExtension(file, ext)
  {
    var name := folder + file;
    var n := |name|;
    if |file| > |ext| {
      assert name[n - |ext| - 1] == file[|file| - |ext| - 1];
      assert name[n - |ext|..] == file[|file| - |ext|..];
    } else if folder != [] && n > |ext| {
      var k := |folder| - 1;
      assert name[k] == Sep;
      if n - |ext| - 1 < k {
        var tail := name[n - |ext|..];
        var j := k - (n - |ext|);
        assert tail[j] == Sep;
        assert ToLowerAscii(tail)[j] == Sep;
        assert ext[j] != Sep;
      }
    }
  }

  /** Both classifiers depend only on the text after the last separator. */
  lemma ClassifiersSeeTail(folder: string, file: string)
    requires folder == [] || folder[|folder| - 1] == Sep
    requires Sep !in file
    ensures IsImage(folder + file) == IsImage(file)
    ensures IsJson(folder + file) == IsJson(file)
  {
    ExtensionOfTail(folder, file, "jpg");
    ExtensionOfTail(folder, file, "jpeg");
    ExtensionOfTail(folder, file, "png");
    ExtensionOfTail(folder, file, "gif");
    ExtensionOfTail(folder, file, "webp");
    ExtensionOfTail(folder, file, JsonExtension);
  }
}
