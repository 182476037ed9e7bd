/**
 * Attachment naming in `download_message_media` and the warning about large
 * attachments in `process_messages_and_send_email`.
 */
module Attachments {
  import opened Text
  import opened Post

  /* ---------------------------------------------------------------------
   * Document name sanitising: re.sub(r"[^A-Za-z0-9._-]+", "_", name)
   * --------------------------------------------------------------------- */

  /** The character class `[A-Za-z0-9._-]`. */
  predicate IsSafeChar(c: char) {
    || 'A' <= c <= 'Z'
    || 'a' <= c <= 'z'
    || '0' <= c <= '9'
    || c == '.' || c == '_' || c == '-'
  }

  predicate AllSafe(s: string) {
    forall i :: 0 <= i < |s| ==> IsSafeChar(s[i])
  }

  predicate NoneSafe(s: string) {
    forall i :: 0 <= i < |s| ==> !IsSafeChar(s[i])
  }

  /** The length of the run of unsafe characters `s` starts with. */
  function UnsafeRun(s: string): (n: nat)
    ensures n <= |s|
  {
    if s != [] && !IsSafeChar(s[0]) then 1 + UnsafeRun(s[1..]) else 0
  }

  /**
   * Every maximal run of characters outside `[A-Za-z0-9._-]` becomes one
   * `_`; every other character is kept.
   */
  function SanitizeName(name: string): (r: string)
    ensures |r| <= |name|
    decreases |name|
  {
    if name == [] then []
    else if IsSafeChar(name[0]) then [name[0]] + SanitizeName(name[1..])
    else "_" + SanitizeName(name[1..][UnsafeRun(name[1..])..])
  }

  /** A run that ends before a safe character stays inside the text it started in. */
  lemma {:induction false} RunEndsInside(x: string, z: string)
    requires x != [] && IsSafeChar(x[|x| - 1])
    ensures UnsafeRun(x + z) == UnsafeRun(x) < |x|
  {
    if !IsSafeChar(x[0]) {
      assert (x + z)[1..] == x[1..] + z;
      RunEndsInside(x[1..], z);
    }
  }

  /** An unsafe run followed by a safe character (or nothing) is read whole. */
  lemma {:induction false} RunIsWhole(u: string, y: string)
    requires NoneSafe(u) && (y == [] || IsSafeChar(y[0]))
    ensures UnsafeRun(u + y) == |u|
  {
    if u != [] {
      assert (u + y)[1..] == u[1..] + y;
      RunIsWhole(u[1..], y);
    } else {
      assert u + y == y;
    }
  }

  /** A name that is already safe is kept as it is. */
  lemma {:induction false} SanitizeKeepsSafe(name: string)
    requires AllSafe(name)
    ensures SanitizeName(name) == name
  {
    if name != [] {
      SanitizeKeepsSafe(name[1..]);
    }
  }

  /** A sanitised name uses only the safe characters. */
  lemma {:induction false} SanitizeSafe(name: string)
    ensures AllSafe(SanitizeName(name))
    decreases |name|
  {
    if name != [] {
      if IsSafeChar(name[0]) {
        SanitizeSafe(name[1..]);
      } else {
        SanitizeSafe(name[1..][UnsafeRun(name[1..])..]);
      }
    }
  }

  /** Sanitising twice is sanitising once. */
  lemma SanitizeIdempotent(name: string)
    ensures SanitizeName(SanitizeName(name)) == SanitizeName(name)
  {
    SanitizeSafe(name);
    SanitizeKeepsSafe(SanitizeName(name));
  }

  /** Sanitising splits at any point right after a safe character. */
  lemma {:induction false} SanitizeSplits(x: string, z: string)
    requires x == [] || IsSafeChar(x[|x| - 1])
    ensures SanitizeName(x + z) == SanitizeName(x) + SanitizeName(z)
    decreases |x|
  {
    if x == [] {
      assert x + z == z;
    } else {
      var s := x + z;
      var t := x[1..];
      assert s[0] == x[0] && s[1..] == t + z;
      if IsSafeChar(x[0]) {
        assert SanitizeName(s) == [x[0]] + SanitizeName(t + z);
        SanitizeSplits(t, z);
        ConcatAssoc([x[0]], SanitizeName(t), SanitizeName(z), SanitizeName(t + z));
      } else {
        RunEndsInside(t, z);
        var k := UnsafeRun(t);
        assert (t + z)[k..] == t[k..] + z;
        assert SanitizeName(s) == "_" + SanitizeName(t[k..] + z);
        SanitizeSplits(t[k..], z);
        ConcatAssoc("_", SanitizeName(t[k..]), SanitizeName(z), SanitizeName(t[k..] + z));
      }
    }
  }

  /**
   * Each maximal run of unsafe characters, whatever its length, becomes
   * exactly one `_`, and the text around it is sanitised on its own.
   */
  lemma SanitizeRun(x: string, u: string, y: string)
    requires x == [] || IsSafeChar(x[|x| - 1])
    requires u != [] && NoneSafe(u)
    requires y == [] || IsSafeChar(y[0])
    ensures SanitizeName(x + u + y) == SanitizeName(x) + "_" + SanitizeName(y)
  {
    var w := u + y;
    assert x + u + y == x + w;
    SanitizeSplits(x, w);
    SanitizeUnsafeStart(u, y);
    ConcatAssoc(SanitizeName(x), "_", SanitizeName(y), SanitizeName(w));
  }

  lemma SanitizeUnsafeStart(u: string, y: string)
    requires u != [] && NoneSafe(u)
    requires y == [] || IsSafeChar(y[0])
    ensures SanitizeName(u + y) == "_" + SanitizeName(y)
  {
    var s := u + y;
    var t := u[1..];
    assert s[0] == u[0];
    assert s[1..] == t + y;
    RunIsWhole(t, y);
    assert (t + y)[|t|..] == y;
  }

  /** `document_<file_unique_id>` when the sender gave no name, then sanitised. */
  function DocumentFileName(doc: FileRef): (name: string)
    ensures AllSafe(name)
  {
    var original := if doc.fileName != "" then doc.fileName else "document_" + doc.fileUniqueId;
    SanitizeSafe(original);
    SanitizeName(original)
  }

  /**
   * A sender's name is sanitised, and kept when already safe; a missing name
   * becomes `document_` and the sanitised id (the id itself when it is safe).
   */
  lemma DocumentFileNameCases(doc: FileRef)
    ensures doc.fileName != "" ==> DocumentFileName(doc) == SanitizeName(doc.fileName)
    ensures doc.fileName != "" && AllSafe(doc.fileName) ==> DocumentFileName(doc) == doc.fileName
    ensures doc.fileName == "" ==> DocumentFileName(doc) == "document_" + SanitizeName(doc.fileUniqueId)
    ensures doc.fileName == "" && AllSafe(doc.fileUniqueId) ==>
            DocumentFileName(doc) == "document_" + doc.fileUniqueId
  {
    if doc.fileName != "" {
      if AllSafe(doc.fileName) {
        SanitizeKeepsSafe(doc.fileName);
      }
    } else {
      var prefix := "document_";
      assert AllSafe(prefix);
      SanitizeKeepsSafe(prefix);
      SanitizeSplits(prefix, doc.fileUniqueId);
      if AllSafe(doc.fileUniqueId) {
        SanitizeKeepsSafe(doc.fileUniqueId);
      }
    }
  }

  /* ---------------------------------------------------------------------
   * pathlib: Path(name).suffix
   * --------------------------------------------------------------------- */

  /** The index of the last `c` in `s`, or -1 (Python's `s.rfind(c)`). */
  function LastIndexOf(s: string, c: char): (i: int)
    ensures -1 <= i < |s|
    ensures i >= 0 ==> s[i] == c
    ensures forall j :: i < j < |s| ==> s[j] != c
  {
    if s == [] then -1
    else if s[|s| - 1] == c then |s| - 1
    else LastIndexOf(s[..|s| - 1], c)
  }

  /**
   * `PurePosixPath(p).name`: the last component of `p`, ignoring trailing
   * slashes and `.` components.
   */
  function PathName(p: string): (name: string)
    ensures '/' !in name
    decreases |p|
  {
    if p == [] then ""
    else if p[|p| - 1] == '/' then PathName(p[..|p| - 1])
    else
      var c := p[LastIndexOf(p, '/') + 1..];
      if c == "." then PathName(p[..|p| - 1]) else c
  }

  /**
   * From index `e` on, `p` holds only what `PathName` skips: slashes, and
   * `.` components, each `.` starting `p` or following a `/` and ending `p`
   * or followed by a `/`.
   */
  predicate SkippedFrom(p: string, e: int) {
    forall k :: 0 <= k < |p| && e <= k ==>
      || p[k] == '/'
      || (p[k] == '.' && (k == 0 || p[k - 1] == '/') && (k + 1 == |p| || p[k + 1] == '/'))
  }

  /** Where `PathName(p)` starts in `p`. */
  function NameStart(p: string): (j: nat)
    decreases |p|
  {
    if p == [] then 0
    else if p[|p| - 1] == '/' then NameStart(p[..|p| - 1])
    else
      var i := LastIndexOf(p, '/') + 1;
      if p[i..] == "." then NameStart(p[..|p| - 1]) else i
  }

  /**
   * `PathName(p)` is a whole component of `p`: the slice from `NameStart(p)`
   * on, which starts `p` or follows a `/`, and is followed by nothing, or by
   * a `/` and then only slashes and `.` components. It is never `.`, and it
   * is empty only when `p` holds nothing but slashes and `.` components.
   */
  lemma {:induction false} PathNameComponent(p: string)
    ensures IsComponent(p, NameStart(p), PathName(p))
    decreases |p|
  {
    if p != [] {
      var q := p[..|p| - 1];
      var c := p[|p| - 1];
      var i := LastIndexOf(p, '/') + 1;
      if c == '/' || p[i..] == "." {
        PathNameDrop(p);
        PathNameComponent(q);
        LastIsSlashOrDot(p);
        FrontLast(p);
        PathNameStep(p, q, c, NameStart(q), PathName(q));
      } else {
        LastComponent(p, i);
      }
    }
  }

  /** `name`, starting at `j`, is the last component of `p` in the sense of `PathName`. */
  predicate IsComponent(p: string, j: int, name: string) {
    && name != "."
    && (name == "" ==> SkippedFrom(p, 0))
    && 0 <= j && j + |name| <= |p| && p[j..j + |name|] == name
    && (j == 0 || p[j - 1] == '/')
    && SkippedFrom(p, j + |name|)
    && (name == "" || j + |name| == |p| || p[j + |name|] == '/')
  }

  /** A final `..` is a name of its own: `a/..` is named `..`, and `a` is not its component. */
  lemma DotDotIsName()
    ensures PathName("a/..") == ".."
    ensures !IsComponent("a/..", 0, "a")
  {
    var p := "a/..";
    assert LastIndexOf(p, '/') == 1;
    assert p[2..] == "..";
    assert !SkippedFrom(p, 1) by {
      assert p[2] == '.' && p[3] == '.';
    }
  }

  /** `PathName` skips a final `/` or `.` component. */
  lemma PathNameDrop(p: string)
    requires p != [] && (p[|p| - 1] == '/' || p[LastIndexOf(p, '/') + 1..] == ".")
    ensures PathName(p) == PathName(p[..|p| - 1]) && NameStart(p) == NameStart(p[..|p| - 1])
  {
  }

  /** A last component that is not `.` is the name. */
  lemma LastComponent(p: string, i: int)
    requires p != [] && p[|p| - 1] != '/' && i == LastIndexOf(p, '/') + 1 && p[i..] != "."
    ensures IsComponent(p, NameStart(p), PathName(p))
  {
    assert i < |p| && (i == 0 || p[i - 1] == '/');
    assert NameStart(p) == i && PathName(p) == p[i..];
    TailIsComponent(p, i);
  }

  /** A non-empty tail other than `.`, starting `p` or after a `/`, is a component of `p`. */
  lemma TailIsComponent(p: string, i: int)
    requires 0 <= i < |p| && p[i..] != "." && (i == 0 || p[i - 1] == '/')
    ensures IsComponent(p, i, p[i..])
  {
    var name := p[i..];
    assert i + |name| == |p|;
    assert p[i..|p|] == name;
  }

  /**
   * When `PathName` drops the last character of `p`, that is a `/` or the
   * `.` of a final `.` component, which starts `p` or follows a `/`.
   */
  lemma LastIsSlashOrDot(p: string)
    requires p != [] && (p[|p| - 1] == '/' || p[LastIndexOf(p, '/') + 1..] == ".")
    ensures var c := p[|p| - 1];
            c == '/' || (c == '.' && (|p| == 1 || p[|p| - 2] == '/'))
  {
    if p[|p| - 1] != '/' {
      var i := LastIndexOf(p, '/') + 1;
      assert p[i..][0] == p[i];
    }
  }

  /**
   * Appending a `/`, or the `.` of a `.` component, to `q` keeps a component
   * `name` of `q` that starts at `j` a component of the longer path.
   */
  lemma PathNameStep(p: string, q: string, c: char, j: int, name: string)
    requires p == q + [c]
    requires c == '/' || (c == '.' && (q == [] || q[|q| - 1] == '/'))
    requires '/' !in name && IsComponent(q, j, name)
    ensures IsComponent(p, j, name)
  {
    var e := j + |name|;
    assert p[j..e] == q[j..e];
    SkippedAppend(p, q, c, e);
    if name == "" {
      SkippedAppend(p, q, c, 0);
    } else {
      assert q[e - 1] == name[|name| - 1];
    }
  }

  /** Appending a `/`, or the `.` of a `.` component, keeps the skipped tail of `q` skipped. */
  lemma SkippedAppend(p: string, q: string, c: char, e: int)
    requires p == q + [c]
    requires c == '/' || (c == '.' && (q == [] || q[|q| - 1] == '/'))
    requires 0 <= e <= |q| && SkippedFrom(q, e)
    ensures SkippedFrom(p, e)
  {
    assert p[|q|] == c;
    forall k | 0 <= k < |p| && e <= k
      ensures || p[k] == '/'
              || (p[k] == '.' && (k == 0 || p[k - 1] == '/') && (k + 1 == |p| || p[k + 1] == '/'))
    {
      if k < |q| {
        assert q[k] == '/' || (q[k] == '.' && (k == 0 || q[k - 1] == '/') && (k + 1 == |q| || q[k + 1] == '/'));
        assert p[k] == q[k];
        assert k > 0 ==> p[k - 1] == q[k - 1];
        assert k + 1 < |q| ==> p[k + 1] == q[k + 1];
        assert k + 1 == |q| ==> p[k + 1] == c && q[|q| - 1] == q[k];
      } else {
        assert k > 0 ==> p[k - 1] == q[|q| - 1];
      }
    }
  }

  /**
   * `PurePath.suffix` of a final component: from its last dot on, provided
   * that dot is neither its first nor its last character.
   */
  function PathSuffix(name: string): (ext: string)
  {
    var i := LastIndexOf(name, '.');
    if 0 < i < |name| - 1 then name[i..] else ""
  }

  /**
   * A non-empty suffix is a dot and at least one more character, holds no
   * other dot, ends the name, and leaves a non-empty stem in front of it.
   */
  lemma SuffixShape(name: string)
    ensures var ext := PathSuffix(name);
            ext != "" ==>
              && 2 <= |ext| < |name|
              && ext[0] == '.'
              && '.' !in ext[1..]
              && name == name[..|name| - |ext|] + ext
    ensures PathSuffix(name) == "" <==>
            forall i :: 0 < i < |name| - 1 ==> name[i] != '.' || exists j :: i < j < |name| && name[j] == '.'
  {
    var i := LastIndexOf(name, '.');
    var ext := PathSuffix(name);
    if ext != "" {
      assert ext == name[i..];
      assert forall k :: 0 <= k < |ext| - 1 ==> ext[1..][k] == name[i + 1 + k];
      assert name == name[..i] + name[i..];
    }
    if ext == "" {
      forall k | 0 < k < |name| - 1 && name[k] == '.'
        ensures exists j :: k < j < |name| && name[j] == '.'
      {
        assert name[i] == '.' && k < i;
      }
    } else {
      assert name[i] == '.' && forall j :: i < j < |name| ==> name[j] != '.';
    }
  }

  /** `Path(file_name or "").suffix or default`. */
  function ExtensionOr(fileName: string, default: string): (ext: string)
    ensures PathSuffix(PathName(fileName)) != "" ==> ext == PathSuffix(PathName(fileName))
    ensures PathSuffix(PathName(fileName)) == "" ==> ext == default
  {
    var e := PathSuffix(PathName(fileName));
    if e == "" then default else e
  }

  /* ---------------------------------------------------------------------
   * File names of one message's media, in download order
   * --------------------------------------------------------------------- */

  datatype Kind = Photo | Video | Document | Animation | Audio | Voice

  /** One file to download: its kind and Telegram's description of it. */
  datatype Item = Item(kind: Kind, file: FileRef)

  /** The position of each kind in the download order. */
  function Rank(k: Kind): nat {
    match k
    case Photo => 0
    case Video => 1
    case Document => 2
    case Animation => 3
    case Audio => 4
    case Voice => 5
  }

  /** Whether message media `m` carries `item`: of a photo only its last, largest size. */
  predicate Carries(m: Media, item: Item) {
    match item.kind
    case Photo => m.photo != [] && item.file == m.photo[|m.photo| - 1]
    case Video => m.video == Some(item.file)
    case Document => m.document == Some(item.file)
    case Animation => m.animation == Some(item.file)
    case Audio => m.audio == Some(item.file)
    case Voice => m.voice == Some(item.file)
  }

  function ItemOf(kind: Kind, o: Option<FileRef>): seq<Item> {
    match o
    case Some(f) => [Item(kind, f)]
    case None => []
  }

  /**
   * The files a message carries, in the order they are downloaded; of a
   * photo only its largest size.
   */
  function MediaItems(m: Media): (items: seq<Item>)
    ensures |items| <= 6
  {
    (if m.photo != [] then [Item(Photo, m.photo[|m.photo| - 1])] else [])
    + ItemOf(Video, m.video)
    + ItemOf(Document, m.document)
    + ItemOf(Animation, m.animation)
    + ItemOf(Audio, m.audio)
    + ItemOf(Voice, m.voice)
  }

  /** Ranks strictly increase along `items`: at most one item per kind, in download order. */
  predicate Ascending(items: seq<Item>) {
    forall i, j :: 0 <= i < j < |items| ==> Rank(items[i].kind) < Rank(items[j].kind)
  }

  predicate RanksBelow(items: seq<Item>, r: nat) {
    forall i :: 0 <= i < |items| ==> Rank(items[i].kind) < r
  }

  /** Appending at most one item of rank `r` after items ranked below `r` stays ascending. */
  lemma AscendingAppend(pre: seq<Item>, g: seq<Item>, r: nat)
    requires Ascending(pre) && RanksBelow(pre, r)
    requires |g| <= 1 && forall i :: 0 <= i < |g| ==> Rank(g[i].kind) == r
    ensures Ascending(pre + g) && RanksBelow(pre + g, r + 1)
  {
  }

  lemma ItemOfHolds(kind: Kind, o: Option<FileRef>, item: Item)
    ensures |ItemOf(kind, o)| <= 1
    ensures forall i :: 0 <= i < |ItemOf(kind, o)| ==> ItemOf(kind, o)[i].kind == kind
    ensures item in ItemOf(kind, o) <==> item.kind == kind && o == Some(item.file)
  {
  }

  /**
   * A message yields exactly the files it carries, at most one per kind, in
   * the download order photo, video, document, animation, audio, voice.
   */
  lemma MediaItemsExact(m: Media)
    ensures Ascending(MediaItems(m))
    ensures forall item :: item in MediaItems(m) <==> Carries(m, item)
  {
    var p0 := if m.photo != [] then [Item(Photo, m.photo[|m.photo| - 1])] else [];
    var p1 := p0 + ItemOf(Video, m.video);
    var p2 := p1 + ItemOf(Document, m.document);
    var p3 := p2 + ItemOf(Animation, m.animation);
    var p4 := p3 + ItemOf(Audio, m.audio);
    var p5 := p4 + ItemOf(Voice, m.voice);
    assert p5 == MediaItems(m);
    var x := Item(Photo, FileRef("", ""));
    ItemOfHolds(Video, m.video, x);
    AscendingAppend(p0, ItemOf(Video, m.video), 1);
    ItemOfHolds(Document, m.document, x);
    AscendingAppend(p1, ItemOf(Document, m.document), 2);
    ItemOfHolds(Animation, m.animation, x);
    AscendingAppend(p2, ItemOf(Animation, m.animation), 3);
    ItemOfHolds(Audio, m.audio, x);
    AscendingAppend(p3, ItemOf(Audio, m.audio), 4);
    ItemOfHolds(Voice, m.voice, x);
    AscendingAppend(p4, ItemOf(Voice, m.voice), 5);
    forall item ensures item in p5 <==> Carries(m, item) {
      ItemOfHolds(Video, m.video, item);
      ItemOfHolds(Document, m.document, item);
      ItemOfHolds(Animation, m.animation, item);
      ItemOfHolds(Audio, m.audio, item);
      ItemOfHolds(Voice, m.voice, item);
    }
  }

  /**
   * The name a downloaded file is stored under: `photo_<id>.jpg`,
   * `video_<id><ext or .mp4>`, the sanitised document name,
   * `animation_<id><ext or .mp4>`, `audio_<id><ext or .mp3>` and
   * `voice_<id>.ogg`.
   */
  function StoredName(item: Item): string {
    var f := item.file;
    match item.kind
    case Photo => "photo_" + f.fileUniqueId + ".jpg"
    case Video => "video_" + f.fileUniqueId + ExtensionOr(f.fileName, ".mp4")
    case Document => DocumentFileName(f)
    case Animation => "animation_" + f.fileUniqueId + ExtensionOr(f.fileName, ".mp4")
    case Audio => "audio_" + f.fileUniqueId + ExtensionOr(f.fileName, ".mp3")
    case Voice => "voice_" + f.fileUniqueId + ".ogg"
  }

  /** The fixed start of the stored name of each kind, "" for a document. */
  function KindPrefix(k: Kind): string {
    match k
    case Photo => "photo_"
    case Video => "video_"
    case Document => ""
    case Animation => "animation_"
    case Audio => "audio_"
    case Voice => "voice_"
  }

  /**
   * A stored name starts with its kind's prefix and then the file's id;
   * photos and voices end in their fixed extension, videos, animations and
   * audio in the sender's extension or the default, documents are safe names.
   */
  lemma StoredNameShape(item: Item)
    ensures var n := StoredName(item);
            var p := KindPrefix(item.kind);
            var id := item.file.fileUniqueId;
            && |p| <= |n| && n[..|p|] == p
            && (item.kind != Document ==> |p| + |id| <= |n| && n[|p|..|p| + |id|] == id)
            && (item.kind == Document ==> AllSafe(n))
            && (item.kind == Photo ==> n[|p| + |id|..] == ".jpg")
            && (item.kind == Voice ==> n[|p| + |id|..] == ".ogg")
            && (item.kind in {Video, Animation, Audio} ==>
                  var e := n[|p| + |id|..];
                  var sfx := PathSuffix(PathName(item.file.fileName));
                  && (sfx != "" ==> e == sfx)
                  && (sfx == "" && item.kind == Audio ==> e == ".mp3")
                  && (sfx == "" && item.kind != Audio ==> e == ".mp4"))
  {
  }

  function StoredNames(items: seq<Item>): (names: seq<string>)
    ensures |names| == |items|
    ensures forall i :: 0 <= i < |items| ==> names[i] == StoredName(items[i])
  {
    if items == [] then [] else [StoredName(items[0])] + StoredNames(items[1..])
  }

  /** The stored names of one message's files, in download order. */
  function MediaFileNames(m: Media): seq<string> {
    StoredNames(MediaItems(m))
  }

  /** A message with nothing but a document yields just the document's name. */
  lemma DocumentOnly(m: Media, d: FileRef)
    requires m == Media([], None, Some(d), None, None, None)
    ensures MediaFileNames(m) == [DocumentFileName(d)]
  {
    assert MediaItems(m) == [Item(Document, d)];
  }

  /** A photo is stored once, under its largest size, before any other file of the message. */
  lemma PhotoFirst(m: Media)
    requires m.photo != []
    ensures MediaFileNames(m) != []
    ensures MediaFileNames(m)[0] == "photo_" + m.photo[|m.photo| - 1].fileUniqueId + ".jpg"
    ensures forall i :: 0 < i < |MediaItems(m)| ==> MediaItems(m)[i].kind != Photo
  {
    assert MediaItems(m)[0] == Item(Photo, m.photo[|m.photo| - 1]);
    MediaItemsExact(m);
  }

  /** `f` applied to each element of `xs`, the results concatenated in order. */
  function Gather<T, U>(xs: seq<T>, f: T -> seq<U>): seq<U> {
    if xs == [] then [] else Gather(xs[..|xs| - 1], f) + f(xs[|xs| - 1])
  }

  /** Gathering distributes over concatenation, so order is kept. */
  lemma {:induction false} GatherConcat<T, U>(a: seq<T>, b: seq<T>, f: T -> seq<U>)
    ensures Gather(a + b, f) == Gather(a, f) + Gather(b, f)
    decreases |b|
  {
    if b == [] {
      assert a + b == a;
    } else {
      var c := a + b;
      assert c[..|c| - 1] == a + b[..|b| - 1];
      assert c[|c| - 1] == b[|b| - 1];
      GatherConcat(a, b[..|b| - 1], f);
    }
  }

  function MessageItems(msg: Message): seq<Item> {
    MediaItems(msg.media)
  }

  /** The files of all messages, message by message, each message's in download order. */
  function AttachmentItems(messages: seq<Message>): seq<Item> {
    Gather(messages, MessageItems)
  }

  /** The files of a longer list of messages extend those of a shorter one. */
  lemma AttachmentItemsConcat(a: seq<Message>, b: seq<Message>)
    ensures AttachmentItems(a + b) == AttachmentItems(a) + AttachmentItems(b)
  {
    GatherConcat(a, b, MessageItems);
  }

  /* ---------------------------------------------------------------------
   * Warning about large attachments
   * --------------------------------------------------------------------- */

  /** `WARN_SIZE_BYTES`: 25 MiB. */
  const WarnSizeBytes: nat := 25 * 1024 * 1024

  /** A staged attachment: its name, whether the file exists, and its size when it does. */
  datatype StagedFile = StagedFile(name: string, present: bool, size: nat)

  /** The filter of `big_files`: an existing file strictly larger than the limit. */
  predicate IsBig(f: StagedFile) {
    f.present && f.size > WarnSizeBytes
  }

  /** `big_files`: the big attachments, in attachment order. */
  function BigFiles(files: seq<StagedFile>): (big: seq<StagedFile>)
    ensures |big| <= |files|
    ensures forall i :: 0 <= i < |big| ==> IsBig(big[i])
  {
    if files == [] then []
    else
      var f := files[|files| - 1];
      BigFiles(files[..|files| - 1]) + (if IsBig(f) then [f] else [])
  }

  /** There are big files exactly when some attachment is big. */
  lemma {:induction false} BigFilesEmpty(files: seq<StagedFile>)
    ensures BigFiles(files) == [] <==> forall i :: 0 <= i < |files| ==> !IsBig(files[i])
  {
    if files != [] {
      var init := files[..|files| - 1];
      BigFilesEmpty(init);
      assert forall i :: 0 <= i < |init| ==> init[i] == files[i];
    }
  }

  /** Filtering keeps attachment order: it distributes over concatenation. */
  lemma {:induction false} BigFilesConcat(a: seq<StagedFile>, b: seq<StagedFile>)
    ensures BigFiles(a + b) == BigFiles(a) + BigFiles(b)
    decreases |b|
  {
    if b == [] {
      assert a + b == a;
    } else {
      assert (a + b)[..|a + b| - 1] == a + b[..|b| - 1];
      BigFilesConcat(a, b[..|b| - 1]);
    }
  }

  /** Every big attachment is listed. */
  lemma {:induction false} BigFilesComplete(files: seq<StagedFile>, i: int)
    requires 0 <= i < |files| && IsBig(files[i])
    ensures files[i] in BigFiles(files)
  {
    if i < |files| - 1 {
      var init := files[..|files| - 1];
      BigFilesComplete(init, i);
      assert init[i] == files[i];
    }
  }

  /** The advisory's content: the names it lists and how many more files there are. */
  datatype Advisory = Advisory(shown: seq<string>, more: nat)

  const MaxShown: nat := 5

  function Names(files: seq<StagedFile>): (names: seq<string>)
    ensures |names| == |files| && forall i :: 0 <= i < |files| ==> names[i] == files[i].name
  {
    if files == [] then [] else [files[0].name] + Names(files[1..])
  }

  /** The advisory, if any big file was staged: `big_files[:5]` and `len(big_files) - 5`. */
  function OversizeAdvisory(files: seq<StagedFile>): (a: Option<Advisory>)
    ensures a.Some? <==> BigFiles(files) != []
    ensures a.Some? ==>
              var big := BigFiles(files);
              && |a.value.shown| == (if |big| <= MaxShown then |big| else MaxShown)
              && (forall i :: 0 <= i < |a.value.shown| ==> a.value.shown[i] == big[i].name)
              && |a.value.shown| + a.value.more == |big|
              && (a.value.more > 0 <==> |big| > MaxShown)
  {
    var big := BigFiles(files);
    if big == [] then None
    else
      var shown := if |big| <= MaxShown then big else big[..MaxShown];
      Some(Advisory(Names(shown), if |big| <= MaxShown then 0 else |big| - MaxShown))
  }

  /** An advisory is given exactly when some staged attachment exists and is over the limit. */
  lemma AdvisoryIffBigFile(files: seq<StagedFile>)
    ensures OversizeAdvisory(files).Some? <==> exists i :: 0 <= i < |files| && IsBig(files[i])
  {
    BigFilesEmpty(files);
  }

  const AdvisoryHead: string := "⚠️ Есть файлы больше 25MB: "
  const AdvisoryTail: string := ". Попробую отправить, но почтовый сервер может не принять."
  const MoreWord: string := " и ещё "

  /** The remainder note: nothing, or ` и ещё <k>`. */
  function MoreNote(more: nat): string {
    if more == 0 then "" else MoreWord + NatToString(more)
  }

  /** The text of the advisory reply. */
  function AdvisoryText(a: Advisory): string {
    AdvisoryHead + Join(", ", a.shown) + MoreNote(a.more) + AdvisoryTail
  }

  /**
   * The advisory opens with its heading, names every shown file after it,
   * each at its place in the comma-separated list, and closes with the
   * remainder note and the closing sentence.
   */
  lemma AdvisoryTextShows(a: Advisory, i: nat)
    requires i < |a.shown|
    ensures AdvisoryText(a)[..|AdvisoryHead|] == AdvisoryHead
    ensures var o := |AdvisoryHead| + JoinOffset(", ", a.shown, i);
            o + |a.shown[i]| <= |AdvisoryText(a)| && AdvisoryText(a)[o..o + |a.shown[i]|] == a.shown[i]
    ensures var t := MoreNote(a.more) + AdvisoryTail;
            |t| <= |AdvisoryText(a)| && AdvisoryText(a)[|AdvisoryText(a)| - |t|..] == t
  {
    JoinAt(", ", a.shown, i);
    ConcatAssoc(AdvisoryHead + Join(", ", a.shown), MoreNote(a.more), AdvisoryTail, MoreNote(a.more) + AdvisoryTail);
    MiddleSlice(AdvisoryHead, Join(", ", a.shown), MoreNote(a.more) + AdvisoryTail,
                AdvisoryText(a), JoinOffset(", ", a.shown, i), |a.shown[i]|);
  }

  /**
   * The remainder note is empty exactly when nothing is left out, and
   * otherwise the count it prints reads back as the number left out.
   */
  lemma MoreNoteReadsBack(more: nat)
    ensures MoreNote(more) == "" <==> more == 0
    ensures more > 0 ==>
              && MoreNote(more)[..|MoreWord|] == MoreWord
              && var digits := MoreNote(more)[|MoreWord|..];
                 (forall i :: 0 <= i < |digits| ==> IsDigit(digits[i])) && ParseNat(digits) == more
  {
    if more > 0 {
      var digits := NatToString(more);
      assert MoreNote(more)[|MoreWord|..] == digits;
      ParseNatToString(more);
    }
  }
}
