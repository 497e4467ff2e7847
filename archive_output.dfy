/**
  What `process_chat` produces for each year: the name of the archive, the
  text of the year's `_chat.txt`, and the media files copied beside it; and
  the per-year loop that puts them together.

  The file system is not modelled. The chat file is a parameter (`None`
  when `_chat.txt` is missing), the folder listing is a sequence of names,
  and `os.path.exists` on a media file is membership in a set of names.
  Each year yields a Bundle: what goes into that year's archive.
*/
module ArchiveOutput {
  import opened PythonText
  import ChatGrouping
  import MediaBuckets

  /** The fixed prefix of every archive name, and the number of characters
      cut from the folder name to get the contact name. */
  const Prefix: string := "WhatsApp Chat - "

  // ---------------------------------------------------------------------
  // Paths and names

  /** `os.path.basename(path)`: everything after the last `/`. */
  function Basename(path: string): string {
    if path == [] then []
    else if path[|path| - 1] == '/' then []
    else Basename(path[..|path| - 1]) + [path[|path| - 1]]
  }

  /** `folder_name[len(prefix):]`: the folder name without its first 16
      characters, whatever they are; empty if the name is shorter. */
  function ContactName(folderName: string): (r: string)
    ensures |r| == (if |folderName| > |Prefix| then |folderName| - |Prefix| else 0)
    ensures r == folderName[|folderName| - |r|..]
  {
    if |folderName| <= |Prefix| then [] else folderName[|Prefix|..]
  }

  /** `f"{prefix}{contact_name} - {year}.zip"`. */
  function ZipFileName(contact: string, year: nat): string {
    Prefix + contact + " - " + NatToString(year) + ".zip"
  }

  /** `os.path.join(a, b)` for POSIX paths: an absolute `b` replaces `a`;
      otherwise a `/` is put between them unless `a` is empty or already
      ends with one. */
  function PathJoin(a: string, b: string): string {
    if b != [] && b[0] == '/' then b
    else if a == [] || a[|a| - 1] == '/' then a + b
    else a + "/" + b
  }

  /** Where the archive of `year` is written. */
  function ZipPath(outputFolder: string, contact: string, year: nat): string {
    PathJoin(outputFolder, ZipFileName(contact, year))
  }

  /** The contact name `process_chat` derives from its input folder. */
  function ContactOf(inputFolder: string): string {
    ContactName(Basename(inputFolder))
  }

  /** The base name is the last path component: a suffix without `/`,
      preceded by a `/` unless it is the whole path. */
  lemma {:induction false} BasenameIsLastComponent(path: string)
    ensures var r := Basename(path);
      && NoneIn(r, {'/'})
      && |r| <= |path|
      && path[|path| - |r|..] == r
      && (|r| == |path| || path[|path| - |r| - 1] == '/')
    decreases |path|
  {
    if path != [] && path[|path| - 1] != '/' {
      var init := path[..|path| - 1];
      BasenameIsLastComponent(init);
      var r := Basename(path);
      assert r == Basename(init) + [path[|path| - 1]];
      assert path[|path| - |r|..] == init[|init| - |Basename(init)|..] + [path[|path| - 1]];
    }
  }

  /** Appending characters other than `/` extends the base name. */
  lemma {:induction false} BasenameAppend(s: string, t: string)
    requires NoneIn(t, {'/'})
    ensures Basename(s + t) == Basename(s) + t
    decreases |t|
  {
    if t == [] {
      assert s + t == s;
    } else {
      var t' := t[..|t| - 1];
      BasenameAppend(s, t');
      assert (s + t)[..|s + t| - 1] == s + t';
      assert t' + [t[|t| - 1]] == t;
    }
  }

  /** The folder `parent/WhatsApp Chat - <c>` yields the contact `c`, and
      its archives are named `WhatsApp Chat - <c> - <year>.zip`: the folder
      name followed by the year. */
  lemma ArchiveNameOfExportFolder(parent: string, c: string, year: nat)
    requires NoneIn(c, {'/'})
    ensures ContactOf(parent + "/" + Prefix + c) == c
    ensures ZipFileName(ContactOf(parent + "/" + Prefix + c), year) == Prefix + c + " - " + NatToString(year) + ".zip"
  {
    assert NoneIn(Prefix + c, {'/'});
    assert parent + "/" + Prefix + c == (parent + "/") + (Prefix + c);
    BasenameAppend(parent + "/", Prefix + c);
    assert Basename(parent + "/") == [];
    assert (Prefix + c)[|Prefix|..] == c;
  }

  /** A path given with a trailing `/` has an empty base name, so the contact
      name is empty and every archive is `WhatsApp Chat -  - <year>.zip`. */
  lemma TrailingSlashLosesContact(path: string, year: nat)
    ensures ContactOf(path + "/") == []
    ensures ZipFileName(ContactOf(path + "/"), year) == Prefix + " - " + NatToString(year) + ".zip"
  {
    assert Basename(path + "/") == [];
  }

  /** Only the length of the folder name's first 16 characters matters:
      they are cut whether or not they read `WhatsApp Chat - `. */
  lemma ContactIgnoresPrefixText(head: string, c: string)
    requires |head| == |Prefix|
    ensures ContactName(head + c) == c
  {
    assert (head + c)[|Prefix|..] == c;
  }

  lemma MiddleEqual(h: string, s1: string, s2: string, t: string)
    requires h + s1 + t == h + s2 + t
    ensures s1 == s2
  {
    assert |s1| == |s2|;
    assert s1 == (h + s1 + t)[|h|..|h| + |s1|];
    assert s2 == (h + s2 + t)[|h|..|h| + |s2|];
  }

  /** Archive names of one contact differ from year to year. */
  lemma ZipFileNameInjective(contact: string, y1: nat, y2: nat)
    requires ZipFileName(contact, y1) == ZipFileName(contact, y2)
    ensures y1 == y2
  {
    MiddleEqual(Prefix + contact + " - ", NatToString(y1), NatToString(y2), ".zip");
    NatToStringInjective(y1, y2);
  }

  /** Joining one folder with two different relative names gives two
      different paths. */
  lemma PathJoinInjective(a: string, n1: string, n2: string)
    requires n1 != [] && n1[0] != '/' && n2 != [] && n2[0] != '/'
    requires PathJoin(a, n1) == PathJoin(a, n2)
    ensures n1 == n2
  {
    if a == [] || a[|a| - 1] == '/' {
      assert n1 == (a + n1)[|a|..];
      assert n2 == (a + n2)[|a|..];
    } else {
      assert n1 == (a + "/" + n1)[|a| + 1..];
      assert n2 == (a + "/" + n2)[|a| + 1..];
    }
  }

  /** Two different years never share an archive path. */
  lemma ZipPathInjective(outputFolder: string, contact: string, y1: nat, y2: nat)
    requires ZipPath(outputFolder, contact, y1) == ZipPath(outputFolder, contact, y2)
    ensures y1 == y2
  {
    PathJoinInjective(outputFolder, ZipFileName(contact, y1), ZipFileName(contact, y2));
    ZipFileNameInjective(contact, y1, y2);
  }

  /** The archive of Bob's chats of 2014. */
  lemma BobArchive2014()
    ensures ZipFileName("Bob", 2014) == "WhatsApp Chat - Bob - 2014.zip"
  {
    assert NatToString(2014) == "2014" by {
      assert NatToString(2) == "2";
      assert NatToString(20) == "20";
      assert NatToString(201) == "201";
    }
  }

  // ---------------------------------------------------------------------
  // The chat file of one year

  /** The text written to a year's `_chat.txt`: every line followed by a
      line feed. */
  function ChatContent(group: seq<string>): string {
    if group == [] then [] else group[0] + "\n" + ChatContent(group[1..])
  }

  lemma {:induction false} ChatContentAppend(a: seq<string>, b: seq<string>)
    ensures ChatContent(a + b) == ChatContent(a) + ChatContent(b)
    decreases |a|
  {
    if a == [] {
      assert a + b == b;
    } else {
      ChatContentAppend(a[1..], b);
      assert (a + b)[1..] == a[1..] + b;
    }
  }

  /** The chat text is the lines and a final empty field joined by line
      feeds. */
  lemma {:induction false} ChatContentIsJoin(group: seq<string>)
    ensures ChatContent(group) == Join(group + [""], '\n')
    decreases |group|
  {
    if group != [] {
      ChatContentIsJoin(group[1..]);
      assert (group + [""])[1..] == group[1..] + [""];
    }
  }

  /** Splitting the written text at its line feeds gives back the year's
      lines, and an empty field after the final line feed. */
  lemma ChatContentLines(group: seq<string>)
    requires forall i :: 0 <= i < |group| ==> NoneIn(group[i], {'\n'})
    ensures Split(ChatContent(group), {'\n'}) == group + [""]
  {
    ChatContentIsJoin(group);
    forall i | 0 <= i < |group + [""]| ensures NoneIn((group + [""])[i], {'\n'}) {
      if i < |group| { assert (group + [""])[i] == group[i]; }
    }
    JoinSplit(group + [""], '\n', {'\n'});
  }

  /** The write loop: `f.write(l + '\n')` for every line of the year. */
  method WriteChat(group: seq<string>) returns (content: string)
    ensures content == ChatContent(group)
  {
    content := [];
    var i := 0;
    while i < |group|
      invariant 0 <= i <= |group|
      invariant content == ChatContent(group[..i])
    {
      assert group[..i + 1] == group[..i] + [group[i]];
      ChatContentAppend(group[..i], [group[i]]);
      assert ChatContent([group[i]]) == group[i] + "\n";
      content := content + group[i] + "\n";
      i := i + 1;
    }
    assert group[..i] == group;
  }

  // ---------------------------------------------------------------------
  // The media of one year

  /** The files of a bucket that exist in the input folder, in bucket order. */
  function Existing(bucket: seq<string>, present: set<string>): seq<string> {
    if bucket == [] then []
    else
      var last := bucket[|bucket| - 1];
      Existing(bucket[..|bucket| - 1], present) + (if last in present then [last] else [])
  }

  /** The copy loop: every file of the bucket that exists is copied and
      counted in `media_count`; the others are reported and skipped. */
  method CopyMedia(bucket: seq<string>, present: set<string>) returns (copied: seq<string>, mediaCount: nat)
    ensures copied == Existing(bucket, present)
    ensures mediaCount == |copied|
  {
    copied, mediaCount := [], 0;
    var i := 0;
    while i < |bucket|
      invariant 0 <= i <= |bucket|
      invariant copied == Existing(bucket[..i], present)
      invariant mediaCount == |copied|
    {
      var filename := bucket[i];
      assert bucket[..i + 1][..i] == bucket[..i];
      if filename in present {
        copied := copied + [filename];
        mediaCount := mediaCount + 1;
      }
      i := i + 1;
    }
    assert bucket[..i] == bucket;
  }

  /** A file is copied exactly when it is in the bucket and exists. */
  lemma {:induction false} ExistingIff(bucket: seq<string>, present: set<string>, f: string)
    ensures f in Existing(bucket, present) <==> f in bucket && f in present
    decreases |bucket|
  {
    if bucket != [] {
      var init := bucket[..|bucket| - 1];
      ExistingIff(init, present, f);
      assert bucket == init + [bucket[|bucket| - 1]];
    }
  }

  /** At most the whole bucket is copied, and all of it when every file
      exists. */
  lemma {:induction false} ExistingCount(bucket: seq<string>, present: set<string>)
    ensures |Existing(bucket, present)| <= |bucket|
    ensures (forall i :: 0 <= i < |bucket| ==> bucket[i] in present) ==> Existing(bucket, present) == bucket
    decreases |bucket|
  {
    if bucket != [] {
      var init := bucket[..|bucket| - 1];
      ExistingCount(init, present);
      if forall i :: 0 <= i < |bucket| ==> bucket[i] in present {
        assert forall i :: 0 <= i < |init| ==> init[i] in present by {
          forall i | 0 <= i < |init| ensures init[i] in present {
            assert init[i] == bucket[i];
          }
        }
        assert init + [bucket[|bucket| - 1]] == bucket;
      }
    }
  }

  // ---------------------------------------------------------------------
  // The per-year loop

  /** What one year leaves behind: its temporary directory, the archive
      path, the text of its `_chat.txt` if the year has chat lines, and the
      media files copied into it. */
  datatype Bundle = Bundle(year: nat, tempDir: string, zipPath: string, chat: Option<string>, media: seq<string>)

  /** How `process_chat` ends: no chat file, a ValueError out of the
      grouping loop, or one archive per year. */
  datatype Outcome = ChatFileMissing | Crashed(literal: string) | Written(bundles: seq<Bundle>)

  /** The bundle of `year`, given the chat groups and the media buckets. */
  function YearBundle(outputFolder: string, contact: string, groups: map<nat, seq<string>>,
                      media: map<nat, seq<string>>, present: set<string>, year: nat): Bundle {
    Bundle(year, PathJoin(outputFolder, NatToString(year)), ZipPath(outputFolder, contact, year),
           if year in groups then Some(ChatContent(groups[year])) else None,
           Existing(GetOrEmpty(media, year), present))
  }

  /** One bundle per year of `years`, in that order. */
  function BundlesFor(years: seq<nat>, outputFolder: string, contact: string, groups: map<nat, seq<string>>,
                      media: map<nat, seq<string>>, present: set<string>): (bs: seq<Bundle>)
    ensures |bs| == |years|
  {
    seq(|years|, k requires 0 <= k < |years| => YearBundle(outputFolder, contact, groups, media, present, years[k]))
  }

  /** The bundles of a chat whose grouping did not raise. */
  function Archives(inputFolder: string, outputFolder: string, lines: seq<string>,
                    allFiles: seq<string>, present: set<string>): seq<Bundle> {
    var groups := ChatGrouping.ReferenceGroups(ChatGrouping.ReadAll(lines));
    var media := MediaBuckets.Buckets(allFiles);
    BundlesFor(MediaBuckets.YearsToProcess(groups.Keys, media.Keys), outputFolder, ContactOf(inputFolder),
               groups, media, present)
  }

  /** The whole of `process_chat`, given what the file system holds. */
  function ExpectedOutcome(inputFolder: string, outputFolder: string, chatLines: Option<seq<string>>,
                           allFiles: seq<string>, present: set<string>): Outcome {
    match chatLines
    case None => ChatFileMissing
    case Some(lines) =>
      match ChatGrouping.FirstRaise(ChatGrouping.ReadAll(lines))
      case Some(lit) => Crashed(lit)
      case None => Written(Archives(inputFolder, outputFolder, lines, allFiles, present))
  }

  /** The body of the per-year loop: write the chat file, copy the media,
      name the archive. */
  method ProcessYear(outputFolder: string, contact: string, yearGroups: map<nat, seq<string>>,
                     mediaByYear: map<nat, seq<string>>, present: set<string>, year: nat)
    returns (b: Bundle)
    ensures b == YearBundle(outputFolder, contact, yearGroups, mediaByYear, present, year)
  {
    var outputDir := PathJoin(outputFolder, NatToString(year));
    var chat: Option<string> := None;
    if year in yearGroups {
      var content := WriteChat(yearGroups[year]);
      chat := Some(content);
    }
    var copied: seq<string> := [];
    var mediaCount := 0;
    if year in mediaByYear {
      copied, mediaCount := CopyMedia(mediaByYear[year], present);
    }
    var zipName := PathJoin(outputFolder, ZipFileName(contact, year));
    b := Bundle(year, outputDir, zipName, chat, copied);
  }

  /** `process_chat(input_folder, output_folder)`. `chatLines` is what
      `readlines()` returns on `_chat.txt`, or None when the file does not
      exist; `allFiles` is `os.listdir(input_folder)`; `present` holds the
      names for which `os.path.exists` holds when the media are copied. */
  method ProcessChat(inputFolder: string, outputFolder: string, chatLines: Option<seq<string>>,
                     allFiles: seq<string>, present: set<string>)
    returns (outcome: Outcome)
    ensures outcome == ExpectedOutcome(inputFolder, outputFolder, chatLines, allFiles, present)
  {
    var folderName := Basename(inputFolder);
    var contactName := ContactName(folderName);
    if chatLines.None? {
      return ChatFileMissing;
    }
    var grouped := ChatGrouping.GroupLinesByYear(chatLines.value);
    if grouped.ValueErrorRaised? {
      return Crashed(grouped.literal);
    }
    var yearGroups := grouped.value;
    var mediaByYear := MediaBuckets.BucketMedia(allFiles);
    var years := MediaBuckets.YearsToProcess(yearGroups.Keys, mediaByYear.Keys);
    var bundles := ProcessYears(years, outputFolder, contactName, yearGroups, mediaByYear, present);
    outcome := Written(bundles);
  }

  /** The loop `for year in years` of `process_chat`. */
  method ProcessYears(years: seq<nat>, outputFolder: string, contact: string, yearGroups: map<nat, seq<string>>,
                      mediaByYear: map<nat, seq<string>>, present: set<string>)
    returns (bundles: seq<Bundle>)
    ensures bundles == BundlesFor(years, outputFolder, contact, yearGroups, mediaByYear, present)
  {
    bundles := [];
    var i := 0;
    while i < |years|
      invariant 0 <= i <= |years|
      invariant bundles == BundlesFor(years[..i], outputFolder, contact, yearGroups, mediaByYear, present)
    {
      var b := ProcessYear(outputFolder, contact, yearGroups, mediaByYear, present, years[i]);
      bundles := bundles + [b];
      i := i + 1;
    }
    assert years[..i] == years;
  }

  // ---------------------------------------------------------------------
  // Properties of the archives

  /** The archives come in strictly increasing year order. */
  lemma ArchivesAscending(inputFolder: string, outputFolder: string, lines: seq<string>,
                          allFiles: seq<string>, present: set<string>)
    ensures var bs := Archives(inputFolder, outputFolder, lines, allFiles, present);
      forall i, j :: 0 <= i < j < |bs| ==> bs[i].year < bs[j].year
  {
  }

  /** Bundles of distinct years have distinct archive paths. */
  lemma BundlePathsDistinct(years: seq<nat>, outputFolder: string, contact: string, groups: map<nat, seq<string>>,
                            media: map<nat, seq<string>>, present: set<string>)
    requires MediaBuckets.Ascending(years)
    ensures var bs := BundlesFor(years, outputFolder, contact, groups, media, present);
      forall i, j :: 0 <= i < j < |bs| ==> bs[i].zipPath != bs[j].zipPath
  {
    var bs := BundlesFor(years, outputFolder, contact, groups, media, present);
    forall i, j | 0 <= i < j < |bs| ensures bs[i].zipPath != bs[j].zipPath {
      if bs[i].zipPath == bs[j].zipPath {
        ZipPathInjective(outputFolder, contact, years[i], years[j]);
      }
    }
  }

  /** No two archives share a path. */
  lemma ArchivePathsDistinct(inputFolder: string, outputFolder: string, lines: seq<string>,
                             allFiles: seq<string>, present: set<string>)
    ensures var bs := Archives(inputFolder, outputFolder, lines, allFiles, present);
      forall i, j :: 0 <= i < j < |bs| ==> bs[i].zipPath != bs[j].zipPath
  {
    var groups := ChatGrouping.ReferenceGroups(ChatGrouping.ReadAll(lines));
    var media := MediaBuckets.Buckets(allFiles);
    var years := MediaBuckets.YearsToProcess(groups.Keys, media.Keys);
    BundlePathsDistinct(years, outputFolder, ContactOf(inputFolder), groups, media, present);
  }

  /** A year has a bundle exactly when it is one of the years processed. */
  lemma BundleYears(years: seq<nat>, outputFolder: string, contact: string, groups: map<nat, seq<string>>,
                    media: map<nat, seq<string>>, present: set<string>, y: nat)
    ensures var bs := BundlesFor(years, outputFolder, contact, groups, media, present);
      (exists k :: 0 <= k < |bs| && bs[k].year == y) <==> y in years
  {
    var bs := BundlesFor(years, outputFolder, contact, groups, media, present);
    if y in years {
      var k :| 0 <= k < |years| && years[k] == y;
      assert bs[k].year == y;
    }
  }

  /** The years of the chat are the years of its dated lines. */
  lemma ChatYearsOfLines(lines: seq<string>, y: nat)
    ensures y in ChatGrouping.ChatYears(ChatGrouping.ReadAll(lines)) <==>
      exists j :: 0 <= j < |lines| && ChatGrouping.Classify(lines[j]) == ChatGrouping.Dated(y)
  {
    var ls := ChatGrouping.ReadAll(lines);
    ChatGrouping.ChatYearsAreDatedYears(ls, y);
    forall j | 0 <= j < |lines| ensures ls[j].kind == ChatGrouping.Classify(lines[j]) {
      ChatGrouping.ReadAllIndex(lines, j);
    }
  }

  /** There is an archive for `y` exactly when some line of the chat is
      dated in `y` or some listed media file carries `y` in its name. */
  lemma ArchiveYears(inputFolder: string, outputFolder: string, lines: seq<string>,
                     allFiles: seq<string>, present: set<string>, y: nat)
    ensures var bs := Archives(inputFolder, outputFolder, lines, allFiles, present);
      (exists k :: 0 <= k < |bs| && bs[k].year == y) <==>
        (exists j :: 0 <= j < |lines| && ChatGrouping.Classify(lines[j]) == ChatGrouping.Dated(y)) ||
        (exists j :: 0 <= j < |allFiles| && MediaBuckets.MediaYear(allFiles[j]) == Some(y))
  {
    var groups := ChatGrouping.ReferenceGroups(ChatGrouping.ReadAll(lines));
    var media := MediaBuckets.Buckets(allFiles);
    var years := MediaBuckets.YearsToProcess(groups.Keys, media.Keys);
    var bs := Archives(inputFolder, outputFolder, lines, allFiles, present);
    assert bs == BundlesFor(years, outputFolder, ContactOf(inputFolder), groups, media, present);
    BundleYears(years, outputFolder, ContactOf(inputFolder), groups, media, present, y);
    var inChat := y in ChatGrouping.ChatYears(ChatGrouping.ReadAll(lines));
    var inMedia := y in MediaBuckets.MediaYears(allFiles);
    assert y in years <==> inChat || inMedia;
    ChatYearsOfLines(lines, y);
    MediaBuckets.MediaYearsIff(allFiles, y);
  }

  /** An archive holds a chat file exactly when its year has chat lines;
      the file is those lines, each followed by a line feed. */
  lemma ArchiveChat(inputFolder: string, outputFolder: string, lines: seq<string>,
                    allFiles: seq<string>, present: set<string>)
    ensures var bs := Archives(inputFolder, outputFolder, lines, allFiles, present);
      var ls := ChatGrouping.ReadAll(lines);
      forall k :: 0 <= k < |bs| ==>
        && (bs[k].chat.Some? <==> bs[k].year in ChatGrouping.ChatYears(ls))
        && (bs[k].chat.Some? ==> bs[k].chat.value == ChatContent(ChatGrouping.Placed(ls, bs[k].year)))
  {
  }

  /** An archive holds exactly the listed media files that carry its year
      and exist. */
  lemma ArchiveMedia(inputFolder: string, outputFolder: string, lines: seq<string>,
                     allFiles: seq<string>, present: set<string>, k: nat, f: string)
    ensures var bs := Archives(inputFolder, outputFolder, lines, allFiles, present);
      k < |bs| ==>
        (f in bs[k].media <==> f in allFiles && f in present && MediaBuckets.MediaYear(f) == Some(bs[k].year))
  {
    var groups := ChatGrouping.ReferenceGroups(ChatGrouping.ReadAll(lines));
    var media := MediaBuckets.Buckets(allFiles);
    var years := MediaBuckets.YearsToProcess(groups.Keys, media.Keys);
    var bs := BundlesFor(years, outputFolder, ContactOf(inputFolder), groups, media, present);
    assert bs == Archives(inputFolder, outputFolder, lines, allFiles, present);
    if k < |bs| {
      BundleMedia(years, outputFolder, ContactOf(inputFolder), groups, allFiles, present, k, f);
    }
  }

  /** The media of a bundle are the listed, existing files filed under its
      year. */
  lemma BundleMedia(years: seq<nat>, outputFolder: string, contact: string, groups: map<nat, seq<string>>,
                    allFiles: seq<string>, present: set<string>, k: nat, f: string)
    requires k < |years|
    ensures var b := BundlesFor(years, outputFolder, contact, groups, MediaBuckets.Buckets(allFiles), present)[k];
      f in b.media <==> f in allFiles && f in present && MediaBuckets.MediaYear(f) == Some(b.year)
  {
    var y := years[k];
    MediaBuckets.BucketOfBuckets(allFiles, y);
    ExistingIff(MediaBuckets.MediaOfYear(allFiles, y), present, f);
    MediaBuckets.InBucketIff(allFiles, f, y);
  }

  /** A line as `readlines()` returns it: a line feed, if any, only at the end. */
  predicate IsReadLine(s: string) {
    forall i :: 0 <= i < |s| - 1 ==> s[i] != '\n'
  }

  lemma ReadLineStored(s: string)
    requires IsReadLine(s)
    ensures NoneIn(RStripNewlines(s), {'\n'})
  {
    if s != [] && s[|s| - 1] == '\n' {
      var t := s[..|s| - 1];
      assert forall i :: 0 <= i < |t| ==> t[i] == s[i];
      assert t == [] || t[|t| - 1] != '\n';
    }
  }

  lemma {:induction false} PlacedWithoutFeeds(ls: seq<ChatGrouping.Line>, y: nat)
    requires forall j :: 0 <= j < |ls| ==> NoneIn(ls[j].stored, {'\n'})
    ensures forall i :: 0 <= i < |ChatGrouping.Placed(ls, y)| ==> NoneIn(ChatGrouping.Placed(ls, y)[i], {'\n'})
    decreases |ls|
  {
    if ls != [] {
      var init := ls[..|ls| - 1];
      assert forall j :: 0 <= j < |init| ==> init[j] == ls[j];
      PlacedWithoutFeeds(init, y);
    }
  }

  /** Reading an archive's chat file back and splitting it at line feeds
      gives the year's lines, as stored, followed by one empty field. */
  lemma ArchiveChatLines(inputFolder: string, outputFolder: string, lines: seq<string>,
                         allFiles: seq<string>, present: set<string>)
    requires forall j :: 0 <= j < |lines| ==> IsReadLine(lines[j])
    ensures var bs := Archives(inputFolder, outputFolder, lines, allFiles, present);
      forall k :: 0 <= k < |bs| && bs[k].chat.Some? ==>
        Split(bs[k].chat.value, {'\n'}) == ChatGrouping.Placed(ChatGrouping.ReadAll(lines), bs[k].year) + [""]
  {
    var ls := ChatGrouping.ReadAll(lines);
    var bs := Archives(inputFolder, outputFolder, lines, allFiles, present);
    forall j | 0 <= j < |ls| ensures NoneIn(ls[j].stored, {'\n'}) {
      ChatGrouping.ReadAllIndex(lines, j);
      ReadLineStored(lines[j]);
    }
    forall k | 0 <= k < |bs| && bs[k].chat.Some?
      ensures Split(bs[k].chat.value, {'\n'}) == ChatGrouping.Placed(ls, bs[k].year) + [""]
    {
      PlacedWithoutFeeds(ls, bs[k].year);
      ChatContentLines(ChatGrouping.Placed(ls, bs[k].year));
    }
  }

  /** A bundle without a chat file belongs to a media year. */
  lemma BundleSources(years: seq<nat>, outputFolder: string, contact: string, groups: map<nat, seq<string>>,
                      media: map<nat, seq<string>>, present: set<string>)
    requires forall y :: y in years ==> y in groups || y in media
    ensures var bs := BundlesFor(years, outputFolder, contact, groups, media, present);
      forall k :: 0 <= k < |bs| ==> bs[k].chat.Some? || bs[k].year in media
  {
    var bs := BundlesFor(years, outputFolder, contact, groups, media, present);
    forall k | 0 <= k < |bs| ensures bs[k].chat.Some? || bs[k].year in media {
      assert years[k] in years;
    }
  }

  /** Every archive has something behind it: a chat file, or at least one
      media file listed under its year (which may no longer exist). */
  lemma ArchiveHasSource(inputFolder: string, outputFolder: string, lines: seq<string>,
                         allFiles: seq<string>, present: set<string>)
    ensures var bs := Archives(inputFolder, outputFolder, lines, allFiles, present);
      forall k :: 0 <= k < |bs| ==> bs[k].chat.Some? || MediaBuckets.MediaOfYear(allFiles, bs[k].year) != []
  {
    var groups := ChatGrouping.ReferenceGroups(ChatGrouping.ReadAll(lines));
    var media := MediaBuckets.Buckets(allFiles);
    var years := MediaBuckets.YearsToProcess(groups.Keys, media.Keys);
    var bs := BundlesFor(years, outputFolder, ContactOf(inputFolder), groups, media, present);
    assert bs == Archives(inputFolder, outputFolder, lines, allFiles, present);
    BundleSources(years, outputFolder, ContactOf(inputFolder), groups, media, present);
    forall k | 0 <= k < |bs| ensures bs[k].chat.Some? || MediaBuckets.MediaOfYear(allFiles, bs[k].year) != [] {
      if bs[k].chat.None? {
        MediaBuckets.BucketsNonEmpty(allFiles, bs[k].year);
      }
    }
  }
}
