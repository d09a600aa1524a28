/** Naming and retry rules of the ANAC archive download (src/anac/aviation.py):
    which links are fetched and under what file name, where each extracted
    file is uploaded, and the bounded retry loops with exponential backoff
    of `download_file` and `upload_to_gcs`. Every network and file-system
    effect becomes an input (the outcome of each attempt, the URL
    resolution) or an output (the sleeps taken). */
module AnacDownload {
  import opened Wrappers
  import opened Text

  // ---------------------------------------------------------------------
  // The `/view` trim

  /** `href[:-5]` when `href.endswith('/view')`, else `href`. */
  function TrimView(href: string): (r: string)
    ensures r == href || href == r + "/view"
  {
    if |href| >= 5 && href[|href| - 5..] == "/view" then href[..|href| - 5] else href
  }

  /** The trim removes exactly one trailing `/view`. */
  lemma TrimViewRemovesSuffix(h: string)
    ensures TrimView(h + "/view") == h
  {
    assert (h + "/view")[|h|..] == "/view";
    assert (h + "/view")[..|h|] == h;
  }

  /** An `href` that does not end in `/view` is left alone. */
  lemma TrimViewKeepsOthers(h: string)
    requires |h| < 5 || h[|h| - 5..] != "/view"
    ensures TrimView(h) == h
  {
  }

  /** The trim happens once: `.../view/view` keeps its first `/view`. */
  lemma TrimViewOnce(h: string)
    ensures TrimView(h + "/view" + "/view") == h + "/view"
  {
    TrimViewRemovesSuffix(h + "/view");
  }

  // ---------------------------------------------------------------------
  // The safe file name

  /** `str.isalnum()` on the characters up to U+00FF: the ASCII letters and
      digits, the Latin-1 letters (ª µ º À–Ö Ø–ö ø–ÿ) and the Latin-1
      numerics ² ³ ¹ ¼ ½ ¾. */
  predicate IsAlnum(c: char) {
    ('0' <= c <= '9') || ('A' <= c <= 'Z') || ('a' <= c <= 'z')
    || c == '\U{aa}' || c == '\U{b5}' || c == '\U{ba}'
    || ('\U{c0}' <= c <= '\U{d6}') || ('\U{d8}' <= c <= '\U{f6}') || ('\U{f8}' <= c <= '\U{ff}')
    || c == '\U{b2}' || c == '\U{b3}' || c == '\U{b9}' || ('\U{bc}' <= c <= '\U{be}')
  }

  /** The characters the sanitiser keeps. */
  predicate IsSafeChar(c: char) {
    IsAlnum(c) || c == ' ' || c == '-' || c == '_'
  }

  /** `"".join(c for c in text if c.isalnum() or c in (' ', '-', '_'))` */
  function KeepSafe(text: string): (r: string)
    ensures |r| <= |text|
    ensures forall k :: 0 <= k < |r| ==> IsSafeChar(r[k])
  {
    if text == [] then []
    else (if IsSafeChar(text[0]) then [text[0]] else []) + KeepSafe(text[1..])
  }

  /** The filter works piece by piece, so it keeps the characters in order. */
  lemma {:induction false} KeepSafeAppend(a: string, b: string)
    ensures KeepSafe(a + b) == KeepSafe(a) + KeepSafe(b)
  {
    if a == [] {
      assert a + b == b;
    } else {
      assert (a + b)[0] == a[0] && (a + b)[1..] == a[1..] + b;
      KeepSafeAppend(a[1..], b);
    }
  }

  /** Text made only of kept characters passes unchanged, and any other
      character is dropped. */
  lemma {:induction false} KeepSafeExactly(text: string)
    ensures KeepSafe(text) == text <==> forall k :: 0 <= k < |text| ==> IsSafeChar(text[k])
  {
    if text != [] {
      KeepSafeExactly(text[1..]);
      if !IsSafeChar(text[0]) {
        assert |KeepSafe(text)| < |text|;
      }
    }
  }

  /** `safe_text`: the kept characters with trailing whitespace removed. */
  function SafeText(text: string): (r: string)
    ensures |r| <= |KeepSafe(text)| && r == KeepSafe(text)[..|r|]
    ensures forall k :: 0 <= k < |r| ==> IsSafeChar(r[k]) && r[k] != '/'
  {
    RStrip(KeepSafe(text))
  }

  /** What `rstrip` removes from the kept characters is a run of spaces, and
      what is left does not end in one. */
  lemma SafeTextTrailing(text: string)
    ensures var kept, r := KeepSafe(text), SafeText(text);
            (r == [] || r[|r| - 1] != ' ')
            && forall k :: |r| <= k < |kept| ==> kept[k] == ' '
  {
    var kept, r := KeepSafe(text), SafeText(text);
    forall k | |r| <= k < |kept| ensures kept[k] == ' ' {
      SafeSpaceIsBlank(kept[k]);
    }
    if r != [] { SafeSpaceIsBlank(r[|r| - 1]); }
  }

  /** The only whitespace character the sanitiser keeps is the space. */
  lemma SafeSpaceIsBlank(c: char)
    requires IsSafeChar(c)
    ensures IsSpace(c) <==> c == ' '
  {
  }

  /** `str(i)` followed by `_`: the index part of a download name. */
  function IndexTag(i: nat): string {
    NatToString(i) + "_"
  }

  /** `f"anac_data_{i}_{safe_text.replace(' ', '_').replace('/', '_')}.zip"` */
  function DownloadFilename(i: nat, text: string): string {
    "anac_data_" + IndexTag(i) + SafeName(text) + ".zip"
  }

  /** A download name starts with `anac_data_` and ends with `.zip`, with at
      least one digit and an underscore between. */
  lemma DownloadFilenameShape(i: nat, text: string)
    ensures var f := DownloadFilename(i, text);
            |f| >= 16 && f[..10] == "anac_data_" && f[|f| - 4..] == ".zip"
  {
  }

  /** `safe_text.replace(' ', '_').replace('/', '_')` */
  function SafeName(text: string): (r: string)
    ensures ' ' !in r && '/' !in r
  {
    var r := ReplaceChar(ReplaceChar(SafeText(text), ' ', '_'), '/', '_');
    assert forall k :: 0 <= k < |r| ==> r[k] != ' ' && r[k] != '/';
    r
  }

  /** A download name holds neither a space nor a `/`. */
  lemma DownloadFilenameChars(i: nat, text: string)
    ensures ' ' !in DownloadFilename(i, text) && '/' !in DownloadFilename(i, text)
  {
    NamePartsAvoid(NatToString(i), SafeName(text), ' ');
    NamePartsAvoid(NatToString(i), SafeName(text), '/');
  }

  lemma NamePartsAvoid(n: string, name: string, c: char)
    requires AllDigits(n) && !IsDigit(c) && c !in name && c !in "anac_data_.zip"
    ensures c !in "anac_data_" + (n + "_") + name + ".zip"
  {
    DigitsAvoid(n, c);
  }

  /** Digits are not the character `c`, which is no digit. */
  lemma DigitsAvoid(n: string, c: char)
    requires AllDigits(n) && !IsDigit(c)
    ensures c !in n
  {
    forall k | 0 <= k < |n| ensures n[k] != c { assert IsDigit(n[k]); }
  }

  /** Because the name holds no `/`, the second replacement changes nothing. */
  lemma SlashReplaceIsNoop(text: string)
    ensures ReplaceChar(ReplaceChar(SafeText(text), ' ', '_'), '/', '_')
            == ReplaceChar(SafeText(text), ' ', '_')
  {
    var t := ReplaceChar(SafeText(text), ' ', '_');
    assert forall k :: 0 <= k < |t| ==> t[k] != '/';
  }

  /** The index can be read back from the name: two downloads with
      different indices never get the same file name, whatever the texts. */
  lemma DownloadFilenameInjective(i: nat, j: nat, s: string, t: string)
    requires DownloadFilename(i, s) == DownloadFilename(j, t)
    ensures i == j
  {
    DownloadFilenameIndex(i, s);
    DownloadFilenameIndex(j, t);
    NatToStringInjective(i, j);
  }

  /** The third `_`-separated piece of a download name is `str(i)`. */
  lemma DownloadFilenameIndex(i: nat, text: string)
    ensures |Split(DownloadFilename(i, text), '_')| > 2
    ensures Split(DownloadFilename(i, text), '_')[2] == NatToString(i)
  {
    NameThirdPiece(NatToString(i), SafeName(text));
  }

  lemma NameThirdPiece(n: string, name: string)
    requires AllDigits(n)
    ensures var parts := Split("anac_data_" + (n + "_") + name + ".zip", '_');
            |parts| > 2 && parts[2] == n
  {
    var rest := name + ".zip";
    var tail := n + ['_'] + rest;
    var mid := "data" + ['_'] + tail;
    assert "anac_data_" + (n + "_") + name + ".zip" == "anac" + ['_'] + mid by {
      assert "anac_data_" == "anac" + ['_'] + "data" + ['_'];
    }
    DigitsAvoid(n, '_');
    SplitAt("anac", mid, '_');
    SplitAt("data", tail, '_');
    SplitAt(n, rest, '_');
  }

  // ---------------------------------------------------------------------
  // Which links are downloaded

  /** A `.zip` link on the page: its `href` attribute, which may be
      missing, and its inner text. */
  datatype Link = Link(href: Option<string>, text: string)

  /** One download the page loop starts: the 1-based link index, the URL
      and the local file name. */
  datatype Download = Download(index: nat, url: string, filename: string)

  /** `if not href: continue`: a missing or empty `href` is skipped. */
  predicate HasHref(link: Link) {
    link.href.Some? && link.href.value != []
  }

  /** The download for the link at 1-based position `i`; `resolve` is the
      absolutising step (`urljoin` with the base URL when the `href` has no
      network location). */
  function DownloadFor(link: Link, i: nat, resolve: string -> string): Download
    requires HasHref(link)
  {
    Download(i, TrimView(resolve(link.href.value)), DownloadFilename(i, Strip(link.text)))
  }

  /** The 1-based positions, counted from `first`, of the links that have
      an `href`: the ones the page loop does not skip. */
  function Selected(links: seq<Link>, first: nat): (r: seq<nat>)
    ensures |r| <= |links|
  {
    if links == [] then []
    else (if HasHref(links[0]) then [first] else []) + Selected(links[1..], first + 1)
  }

  /** Each selected position is in range and names a link with an `href`. */
  lemma {:induction false} SelectedAt(links: seq<Link>, first: nat, k: nat)
    requires k < |Selected(links, first)|
    ensures first <= Selected(links, first)[k] < first + |links|
    ensures HasHref(links[Selected(links, first)[k] - first])
  {
    var head := if HasHref(links[0]) then [first] else [];
    var tail := Selected(links[1..], first + 1);
    assert Selected(links, first) == head + tail;
    if k >= |head| {
      SelectedAt(links[1..], first + 1, k - |head|);
      assert links[1..][tail[k - |head|] - (first + 1)] == links[Selected(links, first)[k] - first];
    }
  }

  /** Appending a link adds its position exactly when it has an `href`. */
  lemma {:induction false} SelectedAppend(links: seq<Link>, link: Link, first: nat)
    ensures Selected(links + [link], first)
            == Selected(links, first) + (if HasHref(link) then [first + |links|] else [])
  {
    var extra := if HasHref(link) then [first + |links|] else [];
    if links == [] {
      assert [] + [link] == [link];
      assert [link][1..] == [];
      assert Selected([link], first) == extra + Selected([], first + 1);
    } else {
      var head := if HasHref(links[0]) then [first] else [];
      assert (links + [link])[0] == links[0];
      assert (links + [link])[1..] == links[1..] + [link];
      SelectedAppend(links[1..], link, first + 1);
      calc {
        Selected(links + [link], first);
        head + Selected(links[1..] + [link], first + 1);
        head + (Selected(links[1..], first + 1) + extra);
        (head + Selected(links[1..], first + 1)) + extra;
        Selected(links, first) + extra;
      }
    }
  }

  /** The positions increase strictly. */
  lemma {:induction false} SelectedOrder(links: seq<Link>, first: nat, k: nat, l: nat)
    requires k < l < |Selected(links, first)|
    ensures Selected(links, first)[k] < Selected(links, first)[l]
  {
    var head := if HasHref(links[0]) then [first] else [];
    var tail := Selected(links[1..], first + 1);
    assert Selected(links, first) == head + tail;
    SelectedAt(links[1..], first + 1, l - |head|);
    if k >= |head| {
      SelectedOrder(links[1..], first + 1, k - |head|, l - |head|);
    }
  }

  /** Every link with an `href` is selected. */
  lemma {:induction false} SelectedCovers(links: seq<Link>, first: nat, k: nat)
    requires k < |links| && HasHref(links[k])
    ensures first + k in Selected(links, first)
  {
    if k > 0 {
      assert links[1..][k - 1] == links[k];
      SelectedCovers(links[1..], first + 1, k - 1);
    }
  }

  /** The downloads the page loop starts, in order. */
  function Planned(links: seq<Link>, resolve: string -> string): (r: seq<Download>)
    ensures |r| == |Selected(links, 1)|
  {
    var sel := Selected(links, 1);
    seq(|sel|, k requires 0 <= k < |sel| =>
      SelectedAt(links, 1, k);
      DownloadFor(links[sel[k] - 1], sel[k], resolve))
  }

  /** The `k`-th planned download comes from the link at its index, which
      has an `href`. */
  lemma PlannedAt(links: seq<Link>, resolve: string -> string, k: nat)
    requires k < |Planned(links, resolve)|
    ensures Planned(links, resolve)[k].index == Selected(links, 1)[k]
    ensures 1 <= Planned(links, resolve)[k].index <= |links|
    ensures HasHref(links[Planned(links, resolve)[k].index - 1])
    ensures Planned(links, resolve)[k]
            == DownloadFor(links[Planned(links, resolve)[k].index - 1], Planned(links, resolve)[k].index, resolve)
  {
    SelectedAt(links, 1, k);
  }

  /** Each planned download comes from the link at its index, which has an
      `href`, and the indices increase strictly. */
  lemma PlannedFromLinks(links: seq<Link>, resolve: string -> string)
    ensures forall k :: 0 <= k < |Planned(links, resolve)| ==>
              1 <= Planned(links, resolve)[k].index <= |links|
              && HasHref(links[Planned(links, resolve)[k].index - 1])
              && Planned(links, resolve)[k]
                 == DownloadFor(links[Planned(links, resolve)[k].index - 1], Planned(links, resolve)[k].index, resolve)
    ensures forall k, l :: 0 <= k < l < |Planned(links, resolve)| ==>
              Planned(links, resolve)[k].index < Planned(links, resolve)[l].index
  {
    forall k | 0 <= k < |Planned(links, resolve)|
      ensures 1 <= Planned(links, resolve)[k].index <= |links|
              && HasHref(links[Planned(links, resolve)[k].index - 1])
              && Planned(links, resolve)[k]
                 == DownloadFor(links[Planned(links, resolve)[k].index - 1], Planned(links, resolve)[k].index, resolve)
    {
      PlannedAt(links, resolve, k);
    }
    forall k, l | 0 <= k < l < |Planned(links, resolve)|
      ensures Planned(links, resolve)[k].index < Planned(links, resolve)[l].index
    {
      PlannedAt(links, resolve, k);
      PlannedAt(links, resolve, l);
      SelectedOrder(links, 1, k, l);
    }
  }

  /** Appending a link appends its download exactly when it has an `href`. */
  lemma PlannedAppend(links: seq<Link>, link: Link, resolve: string -> string)
    ensures Planned(links + [link], resolve)
            == Planned(links, resolve) + (if HasHref(link) then [DownloadFor(link, |links| + 1, resolve)] else [])
  {
    var ext := links + [link];
    var extra := if HasHref(link) then [DownloadFor(link, |links| + 1, resolve)] else [];
    SelectedAppend(links, link, 1);
    var a, b := Planned(ext, resolve), Planned(links, resolve) + extra;
    forall k | 0 <= k < |a| ensures a[k] == b[k] {
      if k < |Planned(links, resolve)| {
        PlannedPrefixAt(links, link, resolve, k);
      } else {
        PlannedAt(ext, resolve, k);
      }
    }
  }

  /** Appending a link leaves the earlier downloads as they were. */
  lemma PlannedPrefixAt(links: seq<Link>, link: Link, resolve: string -> string, k: nat)
    requires Selected(links + [link], 1)
             == Selected(links, 1) + (if HasHref(link) then [|links| + 1] else [])
    requires k < |Planned(links, resolve)|
    ensures k < |Planned(links + [link], resolve)|
    ensures Planned(links + [link], resolve)[k] == Planned(links, resolve)[k]
  {
    var j := Selected(links, 1)[k];
    SelectedAt(links, 1, k);
    assert Selected(links + [link], 1)[k] == j;
    assert (links + [link])[j - 1] == links[j - 1];
  }

  /** Every link with an `href` is downloaded. */
  lemma PlannedCoversLinks(links: seq<Link>, resolve: string -> string, k: nat)
    requires k < |links| && HasHref(links[k])
    ensures DownloadFor(links[k], k + 1, resolve) in Planned(links, resolve)
  {
    SelectedCovers(links, 1, k);
    var j :| 0 <= j < |Selected(links, 1)| && Selected(links, 1)[j] == k + 1;
    PlannedAt(links, resolve, j);
  }

  /** The file name of the `k`-th planned download, from its link's text. */
  lemma PlannedFilenameAt(links: seq<Link>, resolve: string -> string, k: nat)
    requires k < |Planned(links, resolve)|
    ensures Planned(links, resolve)[k].index == Selected(links, 1)[k]
    ensures 1 <= Selected(links, 1)[k] <= |links|
    ensures Planned(links, resolve)[k].filename
            == DownloadFilename(Selected(links, 1)[k], Strip(links[Selected(links, 1)[k] - 1].text))
  {
    PlannedAt(links, resolve, k);
    var i := Selected(links, 1)[k];
    var d := DownloadFor(links[i - 1], i, resolve);
    assert Planned(links, resolve)[k] == d;
    assert d.filename == DownloadFilename(i, Strip(links[i - 1].text));
  }

  /** The downloads never share a file name. */
  lemma PlannedNamesDistinct(links: seq<Link>, resolve: string -> string)
    ensures forall k, l :: 0 <= k < l < |Planned(links, resolve)| ==>
              Planned(links, resolve)[k].filename != Planned(links, resolve)[l].filename
  {
    var r := Planned(links, resolve);
    var sel := Selected(links, 1);
    forall k, l | 0 <= k < l < |r| ensures r[k].filename != r[l].filename {
      PlannedFilenameAt(links, resolve, k);
      PlannedFilenameAt(links, resolve, l);
      SelectedOrder(links, 1, k, l);
      if r[k].filename == r[l].filename {
        DownloadFilenameInjective(sel[k], sel[l], Strip(links[sel[k] - 1].text), Strip(links[sel[l] - 1].text));
      }
    }
  }

  /** The page loop `for i, link in enumerate(links, 1)` up to the download call. */
  method PlanDownloads(links: seq<Link>, resolve: string -> string) returns (downloads: seq<Download>)
    ensures downloads == Planned(links, resolve)
  {
    downloads := [];
    for i := 0 to |links|
      invariant downloads == Planned(links[..i], resolve)
    {
      assert links[..i + 1] == links[..i] + [links[i]];
      PlannedAppend(links[..i], links[i], resolve);
      var href := links[i].href;
      var text := Strip(links[i].text);
      if href.None? || href.value == [] {
        continue;
      }
      var url := resolve(href.value);
      url := TrimView(url);
      var filename := DownloadFilename(i + 1, text);
      downloads := downloads + [Download(i + 1, url, filename)];
    }
    assert links[..|links|] == links;
  }

  // ---------------------------------------------------------------------
  // Upload targets

  /** `f"anac_data/{os.path.basename(file_path)}"` */
  function GcsPath(filePath: string): (r: string)
    ensures "anac_data/" <= r
  {
    "anac_data/" + Basename(filePath)
  }

  /** The object keeps the extracted file's own name, directly under `anac_data/`. */
  lemma GcsPathKeepsName(filePath: string)
    ensures Basename(GcsPath(filePath)) == Basename(filePath)
    ensures '/' !in GcsPath(filePath)[10..]
  {
    BasenameUnder("anac_data/", Basename(filePath));
  }

  /** Below a directory ending in `/`, a slash-free name is its own basename. */
  lemma BasenameUnder(directory: string, name: string)
    requires |directory| > 0 && directory[|directory| - 1] == '/'
    requires '/' !in name
    ensures Basename(directory + name) == name
    ensures (directory + name)[|directory|..] == name
  {
    var dir := directory[..|directory| - 1];
    assert directory == dir + "/";
    BasenameAfterSlash(dir, name);
  }

  /** An archive member `basica<date>.txt` lands at `anac_data/basica<date>.txt`. */
  lemma GcsPathOfArchiveMember(dir: string, name: string)
    requires '/' !in name
    ensures GcsPath(dir + "/" + name) == "anac_data/" + name
  {
    BasenameAfterSlash(dir, name);
  }

  // ---------------------------------------------------------------------
  // Retries with exponential backoff

  /** `os.path.join(directory, name)` for two components. */
  function JoinPath(directory: string, name: string): string {
    if |name| > 0 && name[0] == '/' then name
    else if directory == [] || directory[|directory| - 1] == '/' then directory + name
    else directory + "/" + name
  }

  function Pow2(n: nat): (p: nat)
    ensures p >= 1
  {
    if n == 0 then 1 else 2 * Pow2(n - 1)
  }

  /** The sleeps after the failed attempts `0 .. n - 1`: `2 ** attempt` each. */
  function Backoff(n: nat): (r: seq<nat>)
    ensures |r| == n
    ensures forall k :: 0 <= k < n ==> r[k] == Pow2(k)
  {
    if n == 0 then [] else Backoff(n - 1) + [Pow2(n - 1)]
  }

  function Sum(xs: seq<nat>): nat {
    if xs == [] then 0 else Sum(xs[..|xs| - 1]) + xs[|xs| - 1]
  }

  /** The attempts before the `n`-th together wait `2 ** n - 1` seconds. */
  lemma {:induction false} BackoffTotal(n: nat)
    ensures Sum(Backoff(n)) == Pow2(n) - 1
  {
    if n > 0 {
      BackoffTotal(n - 1);
      assert Backoff(n)[..n - 1] == Backoff(n - 1);
    }
  }

  /** The first attempt in `[from, maxRetries)` that succeeds. */
  function FirstSuccess(succeeds: nat -> bool, from: nat, maxRetries: int): (r: Option<nat>)
    ensures r.Some? ==> from <= r.value < maxRetries && succeeds(r.value)
                        && forall k :: from <= k < r.value ==> !succeeds(k)
    ensures r.None? ==> forall k :: from <= k < maxRetries ==> !succeeds(k)
    decreases maxRetries - from
  {
    if from >= maxRetries then None
    else if succeeds(from) then Some(from)
    else FirstSuccess(succeeds, from + 1, maxRetries)
  }

  /** The sleeps taken by a retry loop: one after every failed attempt
      except the last one allowed. */
  function SleepsTaken(succeeds: nat -> bool, maxRetries: int): seq<nat> {
    match FirstSuccess(succeeds, 0, maxRetries)
    case Some(k) => Backoff(k)
    case None => if maxRetries <= 0 then [] else Backoff(maxRetries - 1)
  }

  /** `download_file(url, filename, temp_dir, max_retries)`; attempt `k`
      succeeds when `succeeds(k)`. Returns the local path or `None`, and the
      sleeps, in seconds, in the order they were taken. */
  method DownloadWithRetries(filename: string, tempDir: string, succeeds: nat -> bool, maxRetries: int)
    returns (path: Option<string>, sleeps: seq<nat>)
    ensures path.Some? <==> FirstSuccess(succeeds, 0, maxRetries).Some?
    ensures path.Some? ==> path.value == JoinPath(tempDir, filename)
    ensures sleeps == SleepsTaken(succeeds, maxRetries)
  {
    sleeps := [];
    var attempt := 0;
    while attempt < maxRetries
      invariant 0 <= attempt && (attempt == 0 || attempt < maxRetries)
      invariant FirstSuccess(succeeds, 0, maxRetries) == FirstSuccess(succeeds, attempt, maxRetries)
      invariant sleeps == Backoff(attempt)
      decreases maxRetries - attempt
    {
      if succeeds(attempt) {
        return Some(JoinPath(tempDir, filename)), sleeps;
      }
      if attempt == maxRetries - 1 {
        return None, sleeps;
      }
      sleeps := sleeps + [Pow2(attempt)];
      attempt := attempt + 1;
    }
    return None, sleeps;
  }

  /** `upload_to_gcs(local_path, gcs_path, gcs_client, bucket_name, max_retries)`.
      Without a client nothing is attempted. */
  method UploadWithRetries(hasClient: bool, succeeds: nat -> bool, maxRetries: int)
    returns (uploaded: bool, sleeps: seq<nat>)
    ensures uploaded <==> hasClient && FirstSuccess(succeeds, 0, maxRetries).Some?
    ensures sleeps == if hasClient then SleepsTaken(succeeds, maxRetries) else []
  {
    if !hasClient {
      return false, [];
    }
    sleeps := [];
    for attempt := 0 to if maxRetries < 0 then 0 else maxRetries
      invariant attempt == 0 || attempt < maxRetries
      invariant FirstSuccess(succeeds, 0, maxRetries) == FirstSuccess(succeeds, attempt, maxRetries)
      invariant sleeps == Backoff(attempt)
    {
      if succeeds(attempt) {
        return true, sleeps;
      }
      if attempt == maxRetries - 1 {
        return false, sleeps;
      }
      sleeps := sleeps + [Pow2(attempt)];
    }
    return false, sleeps;
  }

  /** The retry bounds: at most `max_retries` attempts, so at most
      `max_retries - 1` sleeps; a success at attempt `k` follows exactly `k`
      sleeps, and a loop that never succeeds sleeps `2 ** (max_retries - 1) - 1`
      seconds in all. */
  lemma RetryBounds(succeeds: nat -> bool, maxRetries: int)
    requires maxRetries >= 1
    ensures |SleepsTaken(succeeds, maxRetries)| <= maxRetries - 1
    ensures FirstSuccess(succeeds, 0, maxRetries).Some? ==>
              |SleepsTaken(succeeds, maxRetries)| == FirstSuccess(succeeds, 0, maxRetries).value
    ensures FirstSuccess(succeeds, 0, maxRetries).None? ==>
              Sum(SleepsTaken(succeeds, maxRetries)) == Pow2(maxRetries - 1) - 1
  {
    if FirstSuccess(succeeds, 0, maxRetries).None? {
      BackoffTotal(maxRetries - 1);
    }
  }

  /** With the default of three attempts, a download that always fails
      sleeps 1 and then 2 seconds and gives up. */
  lemma DefaultRetriesAllFail(succeeds: nat -> bool)
    requires forall k :: !succeeds(k)
    ensures FirstSuccess(succeeds, 0, 3) == None
    ensures SleepsTaken(succeeds, 3) == [1, 2]
  {
    assert Backoff(2) == Backoff(1) + [Pow2(1)];
    assert Backoff(1) == [] + [Pow2(0)];
  }
}
