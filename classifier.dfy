/**
 * Classification of one file of the chosen folder: is it an image of an
 * accepted type (by its upper-cased extension), does it carry the prefix
 * token after index 0, and what is its texture type -- the text strictly
 * between the last token character and the last dot.
 */
module Classifier {
  import opened Paths

  const Dot: char := '.'

  /** The accepted image types, compared against the upper-cased extension. */
  const FileTypes: seq<string> := ["PSD", "TIFF", "JPG", "TGA", "PNG", "GIF", "BMP"]

  /** Upper-casing of one character; only the ASCII letters are mapped. */
  function UpperChar(c: char): (u: char) {
    if 'a' <= c <= 'z' then (c as int - 32) as char else c
  }

  /** Upper-casing of a string, character by character (ToUpperAt). */
  function ToUpper(s: string): (u: string)
    ensures |u| == |s|
    decreases |s|
  {
    if |s| == 0 then [] else [UpperChar(s[0])] + ToUpper(s[1..])
  }

  lemma {:induction false} ToUpperAt(s: string, k: int)
    requires 0 <= k < |s|
    ensures ToUpper(s)[k] == UpperChar(s[k])
    decreases |s|
  {
    if k > 0 {
      ToUpperAt(s[1..], k - 1);
    }
  }

  /** Upper-casing commutes with taking a tail. */
  lemma ToUpperTail(s: string, i: int)
    requires 0 <= i <= |s|
    ensures ToUpper(s[i..]) == ToUpper(s)[i..]
  {
    forall k | 0 <= k < |s| - i ensures ToUpper(s[i..])[k] == ToUpper(s)[i + k] {
      ToUpperAt(s[i..], k);
      ToUpperAt(s, i + k);
    }
  }

  /** The text after the last dot; the whole string when there is no dot. */
  function Extension(file: string): (ext: string)
    ensures |ext| <= |file|
  {
    file[LastIndexOf(file, Dot) + 1..]
  }

  /**
   * The extension is the longest dot-free tail of the file: the file is some
   * prefix followed by it, that prefix is empty or ends in a dot, and a file
   * without a dot is its own extension.
   */
  lemma ExtensionShape(file: string)
    ensures var r := Extension(file);
            && |r| <= |file| && file == file[..|file| - |r|] + r
            && Dot !in r
            && (|r| < |file| ==> file[|file| - |r| - 1] == Dot)
            && (Dot !in file ==> r == file)
  {
    LastIndexOfSpec(file, Dot);
    var i := LastIndexOf(file, Dot) + 1;
    var r := file[i..];
    assert |file| - |r| == i;
    assert file == file[..i] + r;
    forall k | 0 <= k < |r| ensures r[k] != Dot {
      assert r[k] == file[i + k];
    }
    if Dot !in file {
      LastIndexOfAbsent(file, Dot);
    }
  }

  /** The extension of `stem + "." + ext` is `ext` when `ext` has no dot. */
  lemma ExtensionOfJoin(stem: string, ext: string)
    requires Dot !in ext
    ensures Extension(stem + [Dot] + ext) == ext
  {
    LastIndexOfAppend(stem + [Dot], ext, Dot);
    LastIndexOfAppend(stem, [Dot], Dot);
  }

  /** Membership of a string in a list of strings, searched from the front. */
  predicate Contains(types: seq<string>, u: string)
    decreases |types|
  {
    |types| > 0 && (types[0] == u || Contains(types[1..], u))
  }

  lemma {:induction false} ContainsIsMembership(types: seq<string>, u: string)
    ensures Contains(types, u) <==> u in types
    decreases |types|
  {
    if |types| > 0 {
      ContainsIsMembership(types[1..], u);
      assert types == [types[0]] + types[1..];
    }
  }

  /** An extension names an accepted type once upper-cased. */
  predicate IsAcceptedType(ext: string) {
    Contains(FileTypes, ToUpper(ext))
  }

  /** The file is an image of an accepted type, whatever the case of its extension. */
  predicate IsImage(file: string) {
    IsAcceptedType(Extension(file))
  }

  /** What the import does with one file, before any copy is tried. */
  datatype Classification =
    | NotImage
      // an image whose prefix token is absent or only at index 0
    | NoPrefixToken
      // the texture-type substring would get a negative length and throws
    | BadSubstring
    | Texture(textureType: string, newFile: string)

  function Classify(file: string, token: char): (c: Classification)
    ensures c.Texture? ==> |c.textureType| < |file| && |c.newFile| <= |file|
  {
    var lastDot := LastIndexOf(file, Dot);
    if !IsAcceptedType(file[lastDot + 1..]) then NotImage
    else
      var prefixIndex := LastIndexOf(file, token);
      if prefixIndex <= 0 then NoPrefixToken
      // Substring(prefixIndex + 1, lastDot - prefixIndex - 1) needs a length >= 0
      else if lastDot - (prefixIndex + 1) < 0 then BadSubstring
      else Texture(file[prefixIndex + 1..lastDot], BaseName(file))
  }

  /** No `c` follows index `i` exactly when the last `c` is at or before `i`. */
  lemma NoneAfter(s: string, c: char, i: int)
    requires 0 <= i
    ensures (forall k :: i < k < |s| ==> s[k] != c) <==> LastIndexOf(s, c) <= i
  {
    LastIndexOfSpec(s, c);
    var r := LastIndexOf(s, c);
    if i < r {
      assert s[r] == c;
    }
  }

  /** A file is rejected as "not an image" exactly when its extension is not accepted. */
  lemma ClassifyNotImage(file: string, token: char)
    ensures Classify(file, token).NotImage? <==> !IsImage(file)
  {
    assert Extension(file) == file[LastIndexOf(file, Dot) + 1..];
  }

  /** An accepted image is skipped exactly when no token occurs after index 0. */
  lemma ClassifyNoPrefixToken(file: string, token: char)
    ensures Classify(file, token).NoPrefixToken? <==>
              IsImage(file) && forall k :: 0 < k < |file| ==> file[k] != token
  {
    assert Extension(file) == file[LastIndexOf(file, Dot) + 1..];
    LastIndexOfSpec(file, token);
    var p := LastIndexOf(file, token);
    if p > 0 {
      assert file[p] == token;
    }
  }

  /**
   * The texture-type substring fails exactly for an accepted image whose last
   * token, found after index 0, has no dot after it.
   */
  lemma ClassifyBadSubstring(file: string, token: char)
    ensures Classify(file, token).BadSubstring? <==>
              IsImage(file) && 0 < LastIndexOf(file, token) &&
              forall k :: LastIndexOf(file, token) < k < |file| ==> file[k] != Dot
  {
    var p, d := LastIndexOf(file, token), LastIndexOf(file, Dot);
    if p > 0 {
      NoneAfter(file, Dot, p);
    }
    assert Extension(file) == file[d + 1..];
    assert Classify(file, token).BadSubstring? <==> IsImage(file) && 0 < p && d <= p;
  }

  /**
   * An accepted texture reads, from the end: the extension, a dot, the
   * texture type, the token, and a non-empty rest. The texture type holds no
   * token, and the copied name is the file's base name.
   */
  lemma ClassifyTexture(file: string, token: char)
    requires Classify(file, token).Texture?
    ensures var c := Classify(file, token);
            var d := |file| - |Extension(file)| - 1;
            var p := d - |c.textureType| - 1;
            && 0 < p && file[p] == token
            && file[p + 1..d] == c.textureType
            && file[d] == Dot
            && token !in c.textureType
            && c.newFile == BaseName(file)
  {
    LastIndexOfSpec(file, token);
    LastIndexOfSpec(file, Dot);
    var p, d := LastIndexOf(file, token), LastIndexOf(file, Dot);
    var textureType := file[p + 1..d];
    assert forall k :: 0 <= k < |textureType| ==> textureType[k] == file[p + 1 + k];
  }

  /**
   * Acceptance ignores case: two files that are equal once upper-cased are
   * both accepted or both rejected.
   */
  lemma ImageIgnoresCase(f: string, g: string)
    requires ToUpper(f) == ToUpper(g)
    ensures IsImage(f) <==> IsImage(g)
  {
    assert |f| == |g|;
    forall k | 0 <= k < |f| ensures f[k] == Dot <==> g[k] == Dot {
      ToUpperAt(f, k);
      ToUpperAt(g, k);
    }
    LastIndexOfSamePositions(f, Dot, g, Dot);
    var d := LastIndexOf(f, Dot);
    ToUpperTail(f, d + 1);
    ToUpperTail(g, d + 1);
  }

  /** A mixed-case accepted extension is accepted. */
  lemma MixedCaseAccepted()
    ensures IsImage("x_a.PnG")
  {
    assert "x_a.PnG" == "x_a" + [Dot] + "PnG";
    ExtensionOfJoin("x_a", "PnG");
    assert ToUpper("PnG") == "PNG";
  }

  /** An extension that is not listed, such as "jpeg", is rejected. */
  lemma UnlistedRejected()
    ensures !IsImage("x_a.jpeg")
  {
    assert "x_a.jpeg" == "x_a" + [Dot] + "jpeg";
    ExtensionOfJoin("x_a", "jpeg");
    assert ToUpper("jpeg") == "JPEG";
    ContainsIsMembership(FileTypes, "JPEG");
  }

  /** Where the last token and the last dot of a joined name are. */
  lemma JoinedPositions(dir: string, name: string, token: char, suffix: string, ext: string)
    requires token != Dot && token !in suffix && token !in ext && Dot !in ext
    ensures var file := AddPath(dir, name + [token] + suffix + [Dot] + ext);
            && LastIndexOf(file, token) == |dir| + 1 + |name|
            && LastIndexOf(file, Dot) == |dir| + 1 + |name| + 1 + |suffix|
  {
    var head := dir + [FSlash];
    var withToken := name + [token];
    var stem := withToken + suffix;
    var base := stem + [Dot] + ext;
    assert AddPath(dir, base) == head + base;
    assert base[|stem|] == Dot && base[|name|] == token;
    LastIndexOfAppend(head, base, Dot);
    LastIndexOfAppend(stem + [Dot], ext, Dot);
    LastIndexOfAppend(stem, [Dot], Dot);
    LastIndexOfAppend(head, base, token);
    LastIndexOfAppend(stem + [Dot], ext, token);
    LastIndexOfAppend(stem, [Dot], token);
    LastIndexOfAppend(withToken, suffix, token);
    LastIndexOfAppend(name, [token], token);
  }

  /** The suffix and the extension of a joined name, cut out again. */
  lemma JoinedSlices(dir: string, name: string, token: char, suffix: string, ext: string)
    ensures var file := AddPath(dir, name + [token] + suffix + [Dot] + ext);
            var p := |dir| + 1 + |name|;
            var d := p + 1 + |suffix|;
            && file[p + 1..d] == suffix
            && file[d + 1..] == ext
  {
    var file := AddPath(dir, name + [token] + suffix + [Dot] + ext);
    var p := |dir| + 1 + |name|;
    var d := p + 1 + |suffix|;
    assert forall k :: 0 <= k < |suffix| ==> file[p + 1 + k] == suffix[k];
    assert forall k :: 0 <= k < |ext| ==> file[d + 1 + k] == ext[k];
  }

  /**
   * Classification by positions: when the last token of an image name is at
   * `p > 0` and its last dot at `d > p`, the text between them is the
   * texture type and the copied name is the base name; a name whose text
   * after that dot is not an accepted type is not an image.
   */
  lemma ClassifyAt(file: string, token: char, p: int, d: int, suffix: string, ext: string)
    requires 0 < p < d < |file|
    requires file[p] == token && forall k :: p < k < |file| ==> file[k] != token
    requires file[d] == Dot && forall k :: d < k < |file| ==> file[k] != Dot
    requires file[p + 1..d] == suffix && file[d + 1..] == ext
    ensures Classify(file, token) == if IsAcceptedType(ext) then Texture(suffix, BaseName(file)) else NotImage
  {
    LastIndexOfUnique(file, token, p);
    LastIndexOfUnique(file, Dot, d);
  }

  /**
   * Parsing a name built as `dir/name` + token + suffix + "." + ext recovers
   * the suffix as the texture type and gives the base name as the copied
   * name, provided the suffix and the extension hold no token and the
   * extension holds no dot (BaseNameOfAddPath gives that base name when
   * the name part has no slash).
   */
  lemma ClassifyRoundTrip(dir: string, name: string, token: char, suffix: string, ext: string)
    requires token != Dot && token !in suffix && token !in ext && Dot !in ext
    ensures var file := AddPath(dir, name + [token] + suffix + [Dot] + ext);
            Classify(file, token) ==
              if IsAcceptedType(ext) then Texture(suffix, BaseName(file)) else NotImage
  {
    var file := AddPath(dir, name + [token] + suffix + [Dot] + ext);
    JoinedPositions(dir, name, token, suffix, ext);
    JoinedSlices(dir, name, token, suffix, ext);
    LastIndexOfSpec(file, token);
    LastIndexOfSpec(file, Dot);
    var p := |dir| + 1 + |name|;
    ClassifyAt(file, token, p, p + 1 + |suffix|, suffix, ext);
  }

  /**
   * The token search runs over the whole path: in `dir/name` + token + `sub`
   * + `/` + `stem.ext`, with the token only in the directory part, the token
   * is still used, and the text from it to the extension, slash included,
   * becomes the texture type, while the copied name is the plain file name.
   */
  lemma TokenInDirectory(dir: string, name: string, token: char, sub: string, stem: string, ext: string)
    requires token != Dot && token !in sub && token !in stem && token !in ext && Dot !in ext
    requires token != FSlash && FSlash !in stem + [Dot] + ext && BSlash !in stem + [Dot] + ext
    requires IsAcceptedType(ext)
    ensures Classify(AddPath(AddPath(dir, name + [token] + sub), stem + [Dot] + ext), token) ==
              Texture(sub + [FSlash] + stem, stem + [Dot] + ext)
  {
    var base := stem + [Dot] + ext;
    var suffix := sub + [FSlash] + stem;
    var file := AddPath(AddPath(dir, name + [token] + sub), base);
    assert file == AddPath(dir, name + [token] + suffix + [Dot] + ext);
    assert token !in suffix by {
      assert suffix == sub + ([FSlash] + stem);
    }
    ClassifyRoundTrip(dir, name, token, suffix, ext);
    forall k | 0 <= k < |base| ensures !IsSlash(base[k]) {
      assert base[k] in base;
    }
    BaseNameOfAddPath(AddPath(dir, name + [token] + sub), base);
  }

  /** The last dot of "C:/tex/wood_a.png" is at 13, and the file is an image. */
  lemma WoodFacts()
    ensures LastIndexOf("C:/tex/wood_a.png", Dot) == 13
    ensures IsImage("C:/tex/wood_a.png")
  {
    assert "C:/tex/wood_a.png" == "C:/tex/wood_a" + [Dot] + "png";
    LastIndexOfAppend("C:/tex/wood_a" + [Dot], "png", Dot);
    LastIndexOfAppend("C:/tex/wood_a", [Dot], Dot);
    ExtensionOfJoin("C:/tex/wood_a", "png");
    assert ToUpper("png") == "PNG";
  }

  /** A token that is the dot itself makes the texture-type substring fail. */
  lemma DotTokenFails()
    ensures Classify("C:/tex/wood_a.png", Dot) == BadSubstring
  {
    WoodFacts();
    ClassifyNotImage("C:/tex/wood_a.png", Dot);
  }

  /** A token that occurs in the extension makes the texture-type substring fail. */
  lemma ExtensionTokenFails()
    ensures Classify("C:/tex/wood_a.png", 'g') == BadSubstring
  {
    WoodFacts();
    ClassifyNotImage("C:/tex/wood_a.png", 'g');
    var file := "C:/tex/wood_a.png";
    assert file == "C:/tex/wood_a.pn" + "g";
    LastIndexOfAppend("C:/tex/wood_a.pn", "g", 'g');
  }
}
