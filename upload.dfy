/** The upload rules of `src/config/multer.js`: which files are accepted, and
    the name under which an accepted file is stored. Paths and extensions
    follow Node's POSIX `path.basename` and `path.extname`. */
module Upload {
  import opened Wrappers

  type Byte = b: int | 0 <= b < 256

  // ---------------------------------------------------------------------
  // Node's path.extname

  /** Position of the last `c` in `s`, or -1 when there is none. */
  function LastIndexOf(s: string, c: char): (r: int)
    ensures -1 <= r < |s|
    ensures r >= 0 ==> s[r] == c
    ensures forall j :: r < j < |s| ==> s[j] != c
  {
    if |s| == 0 then -1
    else if s[|s| - 1] == c then |s| - 1
    else LastIndexOf(s[..|s| - 1], c)
  }

  /** `p` without its trailing slashes. */
  function TrimTrailingSlashes(p: string): (r: string)
    ensures |r| <= |p| && r == p[..|r|]
    ensures |r| == 0 || r[|r| - 1] != '/'
    ensures |p| > 0 && p[|p| - 1] != '/' ==> r == p
  {
    if |p| > 0 && p[|p| - 1] == '/' then TrimTrailingSlashes(p[..|p| - 1]) else p
  }

  /** `path.basename`: the last segment of the path, trailing slashes ignored. */
  function Basename(p: string): (r: string)
    ensures forall i :: 0 <= i < |r| ==> r[i] != '/'
  {
    var q := TrimTrailingSlashes(p);
    q[LastIndexOf(q, '/') + 1..]
  }

  /** The basename is the longest slash-free suffix of the path without its
      trailing slashes: it is the whole of it, or it follows a slash. */
  lemma BasenameIsLastSegment(p: string)
    ensures var q := TrimTrailingSlashes(p); var r := Basename(p);
      |r| <= |q| && r == q[|q| - |r|..] && (|r| == |q| || q[|q| - |r| - 1] == '/')
  {
    var q := TrimTrailingSlashes(p);
    var k := LastIndexOf(q, '/') + 1;
    assert Basename(p) == q[k..];
  }

  /** `path.extname`: the basename from its last dot on; empty when the
      basename has no dot, when its only candidate dot is its first character
      (a dot-file such as `.png`), and for the basename `..`. */
  function Extname(p: string): (r: string)
    ensures r == "" || ExtensionShaped(r)
  {
    var base := Basename(p);
    var k := LastIndexOf(base, '.');
    if k <= 0 || base == ".." then "" else base[k..]
  }

  /** A non-empty extension is a dot followed by characters that are neither
      dots nor slashes. */
  ghost predicate ExtensionShaped(e: string) {
    |e| > 0 && e[0] == '.' && forall j :: 1 <= j < |e| ==> e[j] != '.' && e[j] != '/'
  }

  /** A slash-free name is its own basename. */
  lemma BasenameOfSlashFree(p: string)
    requires forall i :: 0 <= i < |p| ==> p[i] != '/'
    ensures Basename(p) == p
  {
    if |p| > 0 {
      assert p[|p| - 1] != '/';
    }
  }

  /** The last dot of `p` is at `k` when `p[k]` is a dot and nothing after it is. */
  lemma LastDotAt(p: string, k: int)
    requires 0 <= k < |p| && p[k] == '.'
    requires forall j :: k < j < |p| ==> p[j] != '.'
    ensures LastIndexOf(p, '.') == k
  {
  }

  /** The extension of a slash-free, non-empty stem followed by an
      extension-shaped suffix is that suffix, whatever dots the stem holds
      (so `a.tar` + `.png` gives `.png`). */
  lemma ExtnameOfJoin(stem: string, ext: string)
    requires |stem| > 0 && forall i :: 0 <= i < |stem| ==> stem[i] != '/'
    requires ExtensionShaped(ext) && stem + ext != ".."
    ensures Extname(stem + ext) == ext
  {
    var p := stem + ext;
    forall i | 0 <= i < |p| ensures p[i] != '/' {
      if i >= |stem| { assert p[i] == ext[i - |stem|]; } else { assert p[i] == stem[i]; }
    }
    BasenameOfSlashFree(p);
    forall j | |stem| < j < |p| ensures p[j] != '.' {
      assert p[j] == ext[j - |stem|];
    }
    assert p[|stem|] == ext[0];
    LastDotAt(p, |stem|);
    assert p[|stem|..] == ext;
  }

  /** A name without a dot has no extension. */
  lemma ExtnameWithoutDot(p: string)
    requires forall i :: 0 <= i < |p| ==> p[i] != '.'
    ensures Extname(p) == ""
  {
    var q := TrimTrailingSlashes(p);
    var base := Basename(p);
    assert forall i :: 0 <= i < |base| ==> base[i] == q[LastIndexOf(q, '/') + 1 + i] == p[LastIndexOf(q, '/') + 1 + i];
  }

  // ---------------------------------------------------------------------
  // fileFilter

  predicate IsImageExtension(ext: string) {
    ext == ".png" || ext == ".jpg" || ext == ".gif" || ext == ".jpeg"
  }

  /** What `fileFilter` passes to its callback. */
  datatype FilterOutcome = Accept | Reject(error: string)

  const OnlyImages := "Only images are allowed"

  /** `fileFilter`: only the four image extensions pass, and every other
      name gets the one refusal text. */
  function FileFilter(originalname: string): (r: FilterOutcome)
    ensures r == Accept <==> Extname(originalname) in {".png", ".jpg", ".gif", ".jpeg"}
    ensures r.Reject? ==> r.error == OnlyImages
  {
    if IsImageExtension(Extname(originalname)) then Accept else Reject(OnlyImages)
  }

  /** For a name made of a stem and an extension, the filter accepts exactly
      the four image extensions, compared case-sensitively. */
  lemma FileFilterByExtension(stem: string, ext: string)
    requires |stem| > 0 && forall i :: 0 <= i < |stem| ==> stem[i] != '/'
    requires ExtensionShaped(ext) && stem + ext != ".."
    ensures FileFilter(stem + ext) == Accept <==> ext in {".png", ".jpg", ".gif", ".jpeg"}
    ensures FileFilter(stem + ext) != Accept ==> FileFilter(stem + ext) == Reject(OnlyImages)
  {
    ExtnameOfJoin(stem, ext);
  }

  /** The filter refuses every name without a dot. */
  lemma FileFilterRejectsNoExtension(originalname: string)
    requires forall i :: 0 <= i < |originalname| ==> originalname[i] != '.'
    ensures FileFilter(originalname) == Reject(OnlyImages)
  {
    ExtnameWithoutDot(originalname);
  }

  /** A name whose characters are slash-free and which is not empty. */
  ghost predicate PlainStem(stem: string) {
    |stem| > 0 && forall i :: 0 <= i < |stem| ==> stem[i] != '/'
  }

  /** The extension literals used below are extension-shaped. */
  lemma LiteralsShaped()
    ensures ExtensionShaped(".png") && ExtensionShaped(".PNG")
    ensures ExtensionShaped(".exe")
  {
  }

  /** Only the last extension counts: `a.tar.png` passes, `a.png.exe` does
      not, for any plain stem in place of `a`. */
  lemma FileFilterUsesLastExtension(stem: string)
    requires PlainStem(stem)
    ensures FileFilter(stem + ".tar" + ".png") == Accept
    ensures FileFilter(stem + ".png" + ".exe") == Reject(OnlyImages)
  {
    var tar, png := stem + ".tar", stem + ".png";
    assert PlainStem(tar) by {
      forall i | 0 <= i < |tar| ensures tar[i] != '/' {
        if i < |stem| { assert tar[i] == stem[i]; }
      }
    }
    assert PlainStem(png) by {
      forall i | 0 <= i < |png| ensures png[i] != '/' {
        if i < |stem| { assert png[i] == stem[i]; }
      }
    }
    LiteralsShaped();
    ExtnameOfJoin(tar, ".png");
    ExtnameOfJoin(png, ".exe");
  }

  /** Upper case is not folded: `photo.PNG` is refused while `photo.png` passes. */
  lemma FileFilterIsCaseSensitive(stem: string)
    requires PlainStem(stem)
    ensures FileFilter(stem + ".PNG") == Reject(OnlyImages)
    ensures FileFilter(stem + ".png") == Accept
  {
    LiteralsShaped();
    ExtnameOfJoin(stem, ".PNG");
    ExtnameOfJoin(stem, ".png");
  }

  /** A dot-file has no extension, so even `.png` itself is refused. */
  lemma FileFilterRejectsDotfile(rest: string)
    requires forall i :: 0 <= i < |rest| ==> rest[i] != '.' && rest[i] != '/'
    ensures FileFilter("." + rest) == Reject(OnlyImages)
  {
    var p := "." + rest;
    forall i | 0 <= i < |p| ensures p[i] != '/' {
      if i > 0 { assert p[i] == rest[i - 1]; }
    }
    BasenameOfSlashFree(p);
    forall j | 0 < j < |p| ensures p[j] != '.' {
      assert p[j] == rest[j - 1];
    }
    LastDotAt(p, 0);
  }

  // ---------------------------------------------------------------------
  // filename

  const HexDigits := "0123456789abcdef"

  predicate IsLowerHexDigit(c: char) {
    '0' <= c <= '9' || 'a' <= c <= 'f'
  }

  /** `buffer.toString('hex')`: two lower-case hex digits per byte. */
  function Hex(bytes: seq<Byte>): (s: string)
    ensures |s| == 2 * |bytes|
    ensures forall i :: 0 <= i < |s| ==> IsLowerHexDigit(s[i])
  {
    if |bytes| == 0 then []
    else [HexDigits[bytes[0] / 16], HexDigits[bytes[0] % 16]] + Hex(bytes[1..])
  }

  function DigitValue(c: char): int {
    if '0' <= c <= '9' then c as int - '0' as int
    else if 'a' <= c <= 'f' then c as int - 'a' as int + 10
    else 0
  }

  /** Reads back the bytes of a hex string, two digits at a time. */
  function Unhex(s: string): seq<int> {
    if |s| < 2 then []
    else [DigitValue(s[0]) * 16 + DigitValue(s[1])] + Unhex(s[2..])
  }

  lemma DigitValueOfHexDigit(n: int)
    requires 0 <= n < 16
    ensures DigitValue(HexDigits[n]) == n
  {
  }

  /** The two digits written for byte `b` read back as `b`. */
  lemma ByteDigits(b: Byte)
    ensures DigitValue(HexDigits[b / 16]) * 16 + DigitValue(HexDigits[b % 16]) == b
  {
    DigitValueOfHexDigit(b / 16);
    DigitValueOfHexDigit(b % 16);
  }

  /** Unhex reads one byte from the first two digits, then the rest. */
  lemma UnhexStep(s: string)
    requires |s| >= 2
    ensures Unhex(s) == [DigitValue(s[0]) * 16 + DigitValue(s[1])] + Unhex(s[2..])
  {
  }

  /** The first two digits of the hex text are those of the first byte. */
  lemma HexHead(bytes: seq<Byte>)
    requires |bytes| > 0
    ensures var s := Hex(bytes);
      s[0] == HexDigits[bytes[0] / 16] && s[1] == HexDigits[bytes[0] % 16] &&
      s[2..] == Hex(bytes[1..])
  {
    var s := Hex(bytes);
    assert s == [HexDigits[bytes[0] / 16], HexDigits[bytes[0] % 16]] + Hex(bytes[1..]);
  }

  /** The hex text determines the random bytes: nothing is lost in the name. */
  lemma {:induction false} HexRoundTrip(bytes: seq<Byte>)
    ensures Unhex(Hex(bytes)) == bytes
  {
    if |bytes| > 0 {
      HexHead(bytes);
      ByteDigits(bytes[0]);
      UnhexStep(Hex(bytes));
      HexRoundTrip(bytes[1..]);
      assert bytes == [bytes[0]] + bytes[1..];
    }
  }

  /** The hex text followed by `ext` splits back into the bytes and `ext`. */
  lemma HexThenSuffix(bytes: seq<Byte>, ext: string)
    ensures var name := Hex(bytes) + ext; var n := 2 * |bytes|;
      |name| == n + |ext| && Unhex(name[..n]) == bytes && name[n..] == ext
  {
    var hex := Hex(bytes);
    var name := hex + ext;
    assert name[..|hex|] == hex && name[|hex|..] == ext;
    HexRoundTrip(bytes);
  }

  /** `filename`: `randomBytes` is the outcome of `crypto.randomBytes(16, …)`;
      its error goes to the callback and no name is produced. */
  function StoredName(randomBytes: Result<seq<Byte>, string>, originalname: string): (r: Result<string, string>)
    ensures randomBytes.Err? ==> r == Err(randomBytes.error)
    ensures randomBytes.Ok? ==>
      var n := 2 * |randomBytes.value|;
      r.Ok? && |r.value| == n + |Extname(originalname)| &&
      Unhex(r.value[..n]) == randomBytes.value && r.value[n..] == Extname(originalname)
  {
    match randomBytes
    case Err(e) => Err(e)
    case Ok(bytes) =>
      var ext := Extname(originalname);
      HexThenSuffix(bytes, ext);
      Ok(Hex(bytes) + ext)
  }

  /** With the 16 bytes of `filename`, the stored name starts with 32
      lower-case hex digits, and its own extension is the original one. */
  lemma StoredNameSpec(bytes: seq<Byte>, originalname: string)
    requires |bytes| == 16
    ensures var r := StoredName(Ok(bytes), originalname);
      r.Ok? && |r.value| == 32 + |Extname(originalname)| &&
      (forall i :: 0 <= i < 32 ==> IsLowerHexDigit(r.value[i])) &&
      Extname(r.value) == Extname(originalname)
  {
    var hex := Hex(bytes);
    var ext := Extname(originalname);
    var name := hex + ext;
    assert forall i :: 0 <= i < |hex| ==> hex[i] != '.' && hex[i] != '/';
    if ext == "" {
      assert name == hex;
      ExtnameWithoutDot(hex);
    } else {
      assert name[0] == hex[0];
      ExtnameOfJoin(hex, ext);
    }
  }

  /** A file the filter accepts is stored under an image extension. */
  lemma AcceptedFileKeepsImageExtension(bytes: seq<Byte>, originalname: string)
    requires |bytes| == 16 && FileFilter(originalname) == Accept
    ensures IsImageExtension(Extname(StoredName(Ok(bytes), originalname).value))
  {
    StoredNameSpec(bytes, originalname);
  }
}
