/** The string helpers of the utility class `utils.FileIO`: the extension of a
    file name, and the joining of values with a separator character. */
module FileIO {
  import opened Wrappers

  // ---------------------------------------------------------------------------
  // Extension of a file name
  // ---------------------------------------------------------------------------

  /** `String.lastIndexOf(c)`: the index of the last occurrence of `c` in `s`, or -1. */
  function LastIndexOf(s: string, c: char): (r: int)
    ensures -1 <= r < |s|
    ensures r == -1 <==> c !in s
    ensures 0 <= r ==> s[r] == c && c !in s[r + 1..]
  {
    if |s| == 0 then -1
    else if s[|s| - 1] == c then |s| - 1
    else
      assert s == s[..|s| - 1] + [s[|s| - 1]];
      LastIndexOf(s[..|s| - 1], c)
  }

  /** `getExtention`: the text after the last dot; no extension (`null`) when
      there is no dot, when the last dot is the first character, or when
      nothing follows the last dot. */
  function GetExtension(filename: string): (ext: Option<string>)
    ensures ext.Some? ==> ext.value != [] && '.' !in ext.value
  {
    var index := LastIndexOf(filename, '.');
    if index > 0 then
      var e := filename[index + 1..];
      if |e| < 1 then None else Some(e)
    else None
  }

  /** `filename` is a non-empty `prefix`, a dot, and a non-empty `ext` without dots. */
  predicate IsSplitAtExtension(filename: string, prefix: string, ext: string)
  {
    prefix != [] && ext != [] && '.' !in ext && filename == prefix + "." + ext
  }

  /** An extension that is found splits the name into a non-empty prefix, a dot and the extension. */
  lemma GetExtensionSound(filename: string)
    requires GetExtension(filename).Some?
    ensures |GetExtension(filename).value| + 1 < |filename|
    ensures IsSplitAtExtension(filename, filename[..|filename| - |GetExtension(filename).value| - 1],
                               GetExtension(filename).value)
  {
    var index := LastIndexOf(filename, '.');
    var ext := GetExtension(filename).value;
    assert ext == filename[index + 1..];
    assert filename[..index] + "." + ext == filename by {
      assert filename == filename[..index] + [filename[index]] + filename[index + 1..];
    }
  }

  /** Every such split is found: the extension is exactly the part after the prefix's dot. */
  lemma GetExtensionComplete(filename: string, prefix: string, ext: string)
    requires IsSplitAtExtension(filename, prefix, ext)
    ensures GetExtension(filename) == Some(ext)
  {
    var k := |prefix|;
    assert filename[k] == '.';
    assert filename[k + 1..] == ext;
    assert '.' in filename;
  }

  /** No extension exactly when the name admits no such split. */
  lemma GetExtensionNoneExact(filename: string)
    ensures GetExtension(filename).None? <==>
            forall prefix, ext :: !IsSplitAtExtension(filename, prefix, ext)
  {
    if GetExtension(filename).Some? {
      GetExtensionSound(filename);
    } else {
      forall prefix, ext | IsSplitAtExtension(filename, prefix, ext)
        ensures false
      {
        GetExtensionComplete(filename, prefix, ext);
      }
    }
  }

  /** A name without a dot has no extension. */
  lemma GetExtensionNoDot(filename: string)
    requires '.' !in filename
    ensures GetExtension(filename) == None
  {
  }

  /** A name whose only dot is its first character (".hidden") has no extension. */
  lemma GetExtensionLeadingDot(filename: string)
    requires |filename| > 0 && filename[0] == '.' && '.' !in filename[1..]
    ensures GetExtension(filename) == None
  {
    assert filename[1..] == filename[0 + 1..];
  }

  /** A name that ends with a dot has no extension. */
  lemma GetExtensionTrailingDot(filename: string)
    requires |filename| > 0 && filename[|filename| - 1] == '.'
    ensures GetExtension(filename) == None
  {
  }

  /** The extension is taken after the LAST dot. */
  lemma GetExtensionExamples()
    ensures GetExtension("a.b.png") == Some("png")
    ensures GetExtension("noext") == None
    ensures GetExtension(".hidden") == None
    ensures GetExtension("image.") == None
  {
    assert IsSplitAtExtension("a.b.png", "a.b", "png");
    GetExtensionComplete("a.b.png", "a.b", "png");
    GetExtensionNoDot("noext");
    GetExtensionLeadingDot(".hidden");
    GetExtensionTrailingDot("image.");
  }

  // ---------------------------------------------------------------------------
  // Joining values with a separator
  // ---------------------------------------------------------------------------

  /** The outcome of `object2String`: the joined text, or the
      `ArrayIndexOutOfBoundsException` raised by `objects[n - 1]` when there
      are no values, with the index it was raised for. */
  datatype JoinResult = Joined(text: string) | IndexOutOfBounds(index: int)

  /** Total number of characters in `parts`. */
  function TotalLength(parts: seq<string>): nat
  {
    if parts == [] then 0 else |parts[0]| + TotalLength(parts[1..])
  }

  /** `parts[0] + sep + parts[1] + ... + sep + parts[n - 1]`. */
  function Join(sep: char, parts: seq<string>): (r: string)
    requires |parts| >= 1
    ensures |r| == TotalLength(parts) + |parts| - 1
  {
    if |parts| == 1 then parts[0] else parts[0] + [sep] + Join(sep, parts[1..])
  }

  /** One value is returned unchanged. */
  lemma JoinSingle(sep: char, s: string)
    ensures Join(sep, [s]) == s
  {
  }

  /** Joining grows one separator and one value at a time, with no trailing separator. */
  lemma {:induction false} JoinSnoc(sep: char, parts: seq<string>, last: string)
    requires |parts| >= 1
    ensures Join(sep, parts + [last]) == Join(sep, parts) + [sep] + last
  {
    if |parts| > 1 {
      assert (parts + [last])[1..] == parts[1..] + [last];
      JoinSnoc(sep, parts[1..], last);
    }
  }

  /** `object2String(sep, objects...)`, each value already in its string form. */
  method ObjectToString(sep: char, objects: seq<string>) returns (r: JoinResult)
    ensures |objects| == 0 <==> r == IndexOutOfBounds(-1)
    ensures |objects| >= 1 ==> r == Joined(Join(sep, objects))
  {
    var sb: string := [];
    var n := |objects|;
    var i := 0;
    while i < n - 1
      invariant 0 <= i && (n >= 1 ==> i <= n - 1)
      invariant n >= 1 ==> sb + Join(sep, objects[i..]) == Join(sep, objects)
    {
      assert objects[i..][1..] == objects[i + 1..];
      sb := sb + objects[i] + [sep];
      i := i + 1;
    }
    if n - 1 < 0 {
      return IndexOutOfBounds(n - 1);
    }
    assert objects[n - 1..] == [objects[n - 1]];
    sb := sb + objects[n - 1];
    r := Joined(sb);
  }

  /** Cutting a text at every `sep`; always at least one (possibly empty) piece.
      An independent inverse of Join for values that contain no separator. */
  function Split(sep: char, s: string): (parts: seq<string>)
    ensures |parts| >= 1
  {
    if s == [] then [[]]
    else
      var rest := Split(sep, s[1..]);
      if s[0] == sep then [[]] + rest else [[s[0]] + rest[0]] + rest[1..]
  }

  lemma {:induction false} SplitNoSeparator(sep: char, p: string)
    requires sep !in p
    ensures Split(sep, p) == [p]
  {
    if p != [] {
      SplitNoSeparator(sep, p[1..]);
      assert [p[0]] + p[1..] == p;
    }
  }

  lemma {:induction false} SplitAfterPiece(sep: char, p: string, s: string)
    requires sep !in p
    ensures Split(sep, p + [sep] + s) == [p] + Split(sep, s)
  {
    if p == [] {
      assert p + [sep] + s == [sep] + s;
      assert ([sep] + s)[1..] == s;
    } else {
      var t := p + [sep] + s;
      assert t[1..] == p[1..] + [sep] + s;
      SplitAfterPiece(sep, p[1..], s);
      assert [p[0]] + p[1..] == p;
    }
  }

  /** Splitting the joined text gives the values back, when none contains the separator. */
  lemma {:induction false} SplitJoin(sep: char, parts: seq<string>)
    requires |parts| >= 1
    requires forall i :: 0 <= i < |parts| ==> sep !in parts[i]
    ensures Split(sep, Join(sep, parts)) == parts
  {
    if |parts| == 1 {
      SplitNoSeparator(sep, parts[0]);
    } else {
      SplitAfterPiece(sep, parts[0], Join(sep, parts[1..]));
      SplitJoin(sep, parts[1..]);
      assert [parts[0]] + parts[1..] == parts;
    }
  }

  /** `object2String(',', "a", "b", "c")` is `"a,b,c"`. */
  lemma JoinExample()
    ensures Join(',', ["a", "b", "c"]) == "a,b,c"
  {
  }
}
