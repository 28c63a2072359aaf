/**
 * The Figma embed component: `getEmbedUrl` turns a Figma share link into the
 * URL of Figma's embed page, or gives `null`, in which case the component
 * renders a fallback box that links to the original URL.
 */
module FigmaEmbed {
  import opened Wrappers
  import opened UriEncoding

  /** No piece contains a slash. */
  predicate SlashFree(parts: seq<string>) {
    forall i :: 0 <= i < |parts| ==> '/' !in parts[i]
  }

  /** `String.prototype.split("/")`: the pieces between slashes, empty pieces included. */
  function Split(s: string): (parts: seq<string>)
    ensures |parts| >= 1 && SlashFree(parts)
  {
    if s == [] then [[]]
    else
      var rest := Split(s[1..]);
      if s[0] == '/' then [[]] + rest else [[s[0]] + rest[0]] + rest[1..]
  }

  /** `Array.prototype.join("/")`, the inverse of Split. */
  function Join(parts: seq<string>): string
    requires |parts| >= 1
  {
    if |parts| == 1 then parts[0] else parts[0] + "/" + Join(parts[1..])
  }

  /** Joining the pieces of a split gives back the string. */
  lemma {:induction false} JoinSplit(s: string)
    ensures Join(Split(s)) == s
  {
    if s != [] {
      var rest := Split(s[1..]);
      JoinSplit(s[1..]);
      if s[0] == '/' {
        assert Split(s)[1..] == rest;
      } else {
        var parts := Split(s);
        if |rest| == 1 {
          assert parts == [[s[0]] + rest[0]];
        } else {
          assert parts[1..] == rest[1..];
          assert Join(rest) == rest[0] + "/" + Join(rest[1..]);
        }
      }
      assert [s[0]] + s[1..] == s;
    }
  }

  /** Splitting a join of slash-free pieces gives back the pieces. */
  lemma {:induction false} SplitJoin(parts: seq<string>)
    requires |parts| >= 1 && SlashFree(parts)
    ensures Split(Join(parts)) == parts
  {
    if |parts| == 1 {
      SplitNoSlash(parts[0]);
    } else {
      SplitJoin(parts[1..]);
      SplitConcat(parts[0], Join(parts[1..]));
      SplitNoSlash(parts[0]);
      assert [parts[0]] + parts[1..] == parts;
    }
  }

  lemma {:induction false} SplitNoSlash(s: string)
    requires '/' !in s
    ensures Split(s) == [s]
  {
    if s != [] {
      SplitNoSlash(s[1..]);
      assert [s[0]] + s[1..] == s;
    }
  }

  /** A slash splits the string into the pieces of either side. */
  lemma {:induction false} SplitConcat(a: string, b: string)
    ensures Split(a + "/" + b) == Split(a) + Split(b)
  {
    var s := a + "/" + b;
    if a == [] {
      assert s[0] == '/' && s[1..] == b;
    } else {
      assert s[0] == a[0] && s[1..] == a[1..] + "/" + b;
      SplitConcat(a[1..], b);
      var ra := Split(a[1..]);
      var rest := ra + Split(b);
      assert Split(s[1..]) == rest;
      if a[0] != '/' {
        assert rest[0] == ra[0];
        assert rest[1..] == ra[1..] + Split(b);
      }
    }
  }

  /** `Array.prototype.findIndex(part => part === target)`: the first matching index, or -1. */
  function FindIndex(parts: seq<string>, target: string): (r: int)
    ensures -1 <= r < |parts|
    ensures r == -1 <==> target !in parts
    ensures r >= 0 ==> parts[r] == target && target !in parts[..r]
  {
    if parts == [] then -1
    else if parts[0] == target then 0
    else
      var k := FindIndex(parts[1..], target);
      assert k >= 0 ==> parts[..k + 1] == [parts[0]] + parts[1..][..k];
      if k == -1 then -1 else k + 1
  }

  const EmbedPrefix: string := "https://www.figma.com/embed?embed_host=share&url="

  /** The component's default iframe height. */
  const DefaultHeight: int := 600

  /**
   * `getEmbedUrl`: accepted when the first `file` piece has a non-empty
   * piece after it; the result embeds the whole URL, not the file id.
   */
  function GetEmbedUrl(figmaUrl: string): (r: Option<string>)
    ensures r.Some? <==> HasFileId(figmaUrl)
    ensures r.Some? ==> r.value == EmbedPrefix + EncodeUriComponent(figmaUrl)
  {
    var urlParts := Split(figmaUrl);
    var fileIndex := FindIndex(urlParts, "file");
    if fileIndex != -1 && fileIndex + 1 < |urlParts| && urlParts[fileIndex + 1] != "" then
      Some(EmbedPrefix + EncodeUriComponent(figmaUrl))
    else
      None
  }

  /** Reference definition: some piece is the first `file` piece and the piece after it is non-empty. */
  predicate HasFileId(figmaUrl: string) {
    var parts := Split(figmaUrl);
    exists i :: 0 <= i < |parts| - 1 && parts[i] == "file" && "file" !in parts[..i] && parts[i + 1] != ""
  }

  /** The `url` query parameter of an embed URL decodes to exactly the original link. */
  lemma EmbedUrlCarriesOriginal(figmaUrl: string)
    requires GetEmbedUrl(figmaUrl).Some?
    ensures |GetEmbedUrl(figmaUrl).value| >= |EmbedPrefix|
    ensures GetEmbedUrl(figmaUrl).value[..|EmbedPrefix|] == EmbedPrefix
    ensures DecodeUriComponent(GetEmbedUrl(figmaUrl).value[|EmbedPrefix|..]) == Some(figmaUrl)
  {
    var r := GetEmbedUrl(figmaUrl).value;
    assert r[|EmbedPrefix|..] == EncodeUriComponent(figmaUrl);
    DecodeEncode(figmaUrl);
  }

  /** Two links that are accepted and embed to the same URL are the same link. */
  lemma EmbedUrlInjective(u1: string, u2: string)
    requires GetEmbedUrl(u1).Some? && GetEmbedUrl(u1) == GetEmbedUrl(u2)
    ensures u1 == u2
  {
    EmbedUrlCarriesOriginal(u1);
    EmbedUrlCarriesOriginal(u2);
  }

  /** A link whose first `file` piece is last, or followed by an empty piece, is rejected, whatever follows. */
  lemma OnlyFirstFileCounts(figmaUrl: string)
    requires var parts := Split(figmaUrl); var i := FindIndex(parts, "file");
      i >= 0 && (i + 1 == |parts| || parts[i + 1] == "")
    ensures GetEmbedUrl(figmaUrl) == None
  {
  }

  /** The two outcomes of the component. */
  datatype View =
    | Iframe(src: string, title: string, height: int)
    | Fallback(href: string, height: int)

  /** The component: an iframe showing the embed URL, or the fallback box linking to the link as given. */
  function Render(url: string, title: string, height: Option<int>): (v: View)
    ensures v.Iframe? <==> HasFileId(url)
    ensures v.Iframe? ==> v.src == EmbedPrefix + EncodeUriComponent(url) && v.title == title
    ensures v.Fallback? ==> v.href == url
    ensures height.None? ==> v.height == 600
    ensures height.Some? ==> v.height == height.value
  {
    var h := height.GetOr(DefaultHeight);
    var embedUrl := GetEmbedUrl(url);
    if embedUrl.None? then Fallback(url, h) else Iframe(embedUrl.value, title, h)
  }

  /**
   * A link built from pieces with no earlier `file` piece, then `file`, then a
   * non-empty id, then anything, is embedded (a share link
   * `https://www.figma.com/file/<id>/<name>` is one).
   */
  lemma FileLinkAccepted(before: seq<string>, id: string, after: seq<string>)
    requires SlashFree(before) && SlashFree(after)
    requires "file" !in before
    requires '/' !in id && id != ""
    ensures GetEmbedUrl(Join(before + ["file", id] + after)).Some?
  {
    var parts := before + ["file", id] + after;
    assert SlashFree(parts) by {
      forall i | 0 <= i < |parts| ensures '/' !in parts[i] {
        if i < |before| { assert parts[i] == before[i]; }
        else if i >= |before| + 2 { assert parts[i] == after[i - |before| - 2]; }
      }
    }
    SplitJoin(parts);
    var i := |before|;
    assert parts[..i] == before;
    assert parts[i] == "file" && parts[i + 1] == id;
  }

  /** A link with no `file` piece at all (such as the newer `/design/` links) falls back. */
  lemma NoFilePieceRejected(parts: seq<string>)
    requires |parts| >= 1 && SlashFree(parts)
    requires "file" !in parts
    ensures GetEmbedUrl(Join(parts)) == None
  {
    SplitJoin(parts);
  }
}
