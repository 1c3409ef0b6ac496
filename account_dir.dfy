/**
 * Resolution of an account's data directory and of its message shard files
 * (the private helpers `cleanAccountDirName`, `findAccountDir` and
 * `findMessageDbFiles` of the annual report service).
 */
module AccountDirectory {
  import opened Wrappers
  import opened Text

  /** The canonical account-id prefix. */
  const WxidPrefix: string := "wxid_"

  /** End of the maximal run of `[a-zA-Z0-9]` in `s` that starts at `i`. */
  function AlnumRunEnd(s: string, i: nat): (e: nat)
    requires i <= |s|
    ensures i <= e <= |s|
    decreases |s| - i
  {
    if i < |s| && IsAsciiAlnum(s[i]) then AlnumRunEnd(s, i + 1) else i
  }

  /** The run really is alphanumeric, and it cannot be extended. */
  lemma {:induction false} AlnumRunEndSpec(s: string, i: nat)
    requires i <= |s|
    ensures forall k :: i <= k < AlnumRunEnd(s, i) ==> IsAsciiAlnum(s[k])
    ensures AlnumRunEnd(s, i) < |s| ==> !IsAsciiAlnum(s[AlnumRunEnd(s, i)])
    decreases |s| - i
  {
    if i < |s| && IsAsciiAlnum(s[i]) {
      AlnumRunEndSpec(s, i + 1);
    }
  }

  /** `/^(.+)_([a-zA-Z0-9]{4})$/`: a non-empty head without line breaks,
      an underscore and exactly four alphanumerics at the very end. */
  predicate HasShortSuffix(t: string) {
    && |t| >= 6
    && t[|t| - 5] == '_'
    && (forall k :: |t| - 4 <= k < |t| ==> IsAsciiAlnum(t[k]))
    && (forall k :: 0 <= k < |t| - 5 ==> !IsLineTerminator(t[k]))
  }

  /** `cleanAccountDirName`: the account id without the per-install suffix
      that directory names carry. */
  function CleanAccountDirName(dirName: string): string
  {
    var t := Trim(dirName);
    if t == [] then t
    else if StartsWith(Lower(t), WxidPrefix) then
      var e := AlnumRunEnd(t, |WxidPrefix|);
      if e > |WxidPrefix| then t[..e] else t
    else if HasShortSuffix(t) then t[..|t| - 5]
    else t
  }

  /** The four rules of `cleanAccountDirName`, each stated by what it keeps. */
  lemma CleanAccountDirNameRules(dirName: string)
    ensures var t, r := Trim(dirName), CleanAccountDirName(dirName);
      && (t == [] ==> r == [])
      // an id starting with wxid_ (any case) keeps wxid_ and the longest alphanumeric run after it
      && (StartsWith(Lower(t), WxidPrefix) && |t| > 5 && IsAsciiAlnum(t[5]) ==>
            && 5 < |r| <= |t| && r == t[..|r|]
            && (forall k :: 5 <= k < |r| ==> IsAsciiAlnum(r[k]))
            && (|r| == |t| || !IsAsciiAlnum(t[|r|])))
      && (StartsWith(Lower(t), WxidPrefix) && !(|t| > 5 && IsAsciiAlnum(t[5])) ==> r == t)
      // any other id loses a trailing _ plus four alphanumerics
      && (t != [] && !StartsWith(Lower(t), WxidPrefix) && HasShortSuffix(t) ==>
            t == r + "_" + t[|t| - 4..] && |r| >= 1)
      && (!StartsWith(Lower(t), WxidPrefix) && !HasShortSuffix(t) ==> r == t)
      // in every case the result is a prefix of the trimmed input
      && |r| <= |t| && r == t[..|r|]
  {
    var t := Trim(dirName);
    if t != [] && StartsWith(Lower(t), WxidPrefix) {
      AlnumRunEndSpec(t, 5);
    }
    if t != [] && !StartsWith(Lower(t), WxidPrefix) && HasShortSuffix(t) {
      assert t == t[..|t| - 5] + "_" + t[|t| - 4..];
    }
  }

  /** The example in the source's own comment: the custom-id suffix goes. */
  lemma CleanCustomIdExample()
    ensures CleanAccountDirName("xiangchao1985_b29d") == "xiangchao1985"
  {
    var s := "xiangchao1985_b29d";
    TrimOfTrimmed(s);
    assert !StartsWith(Lower(s), WxidPrefix) by { assert Lower(s)[0] == 'x'; }
    assert forall k :: 0 <= k < 13 ==> !IsLineTerminator(s[k]);
    assert forall k :: 14 <= k < 18 ==> IsAsciiAlnum(s[k]);
    CleanBySuffix(s);
    assert s[..13] == "xiangchao1985";
  }

  /** The suffix rule, for an id that needs no trimming. */
  lemma CleanBySuffix(t: string)
    requires Trim(t) == t && t != [] && !StartsWith(Lower(t), WxidPrefix) && HasShortSuffix(t)
    ensures CleanAccountDirName(t) == t[..|t| - 5]
  {
  }

  /** The `wxid_` rule, for an id that needs no trimming. */
  lemma CleanByWxid(t: string, e: nat)
    requires Trim(t) == t && |t| >= 5 && StartsWith(Lower(t), WxidPrefix)
    requires 5 < e <= |t| && AlnumRunEnd(t, 5) == e
    ensures CleanAccountDirName(t) == t[..e]
  {
  }

  /** The run of `[a-zA-Z0-9]` from `i` ends at `e`. */
  lemma {:induction false} AlnumRunEndAt(s: string, i: nat, e: nat)
    requires i <= e <= |s| && (forall k :: i <= k < e ==> IsAsciiAlnum(s[k]))
    requires e < |s| ==> !IsAsciiAlnum(s[e])
    ensures AlnumRunEnd(s, i) == e
    decreases e - i
  {
    if i < e {
      AlnumRunEndAt(s, i + 1, e);
    }
  }

  /** The example the source gives for a `wxid_` id: the suffix goes. */
  lemma CleanWxidExample()
    ensures CleanAccountDirName("wxid_abc123_x1y2") == "wxid_abc123"
  {
    var s := "wxid_abc123_x1y2";
    TrimOfTrimmed(s);
    assert Lower(s)[..5] == "wxid_";
    AlnumRunEndAt(s, 5, 11);
    CleanByWxid(s, 11);
    assert s[..11] == "wxid_abc123";
  }

  /** A bare `wxid_` id is its own cleaned form. */
  lemma CleanBareWxidExample()
    ensures CleanAccountDirName("wxid_abc123") == "wxid_abc123"
  {
    var w := "wxid_abc123";
    TrimOfTrimmed(w);
    assert Lower(w)[..5] == "wxid_";
    AlnumRunEndAt(w, 5, 11);
    CleanByWxid(w, 11);
    assert w[..11] == w;
  }

  /** One entry of a directory listing. */
  datatype Entry = Entry(name: string, isDirectory: bool)

  /** `fs.existsSync(path.join(baseDir, name))`.  `existsAt` is the file
      system's answer for the joined path, so its case rules and the
      normalisation of `.`, `..` and separators inside `name` are its own;
      joining the empty name gives `baseDir` itself, which exists. */
  predicate PathExists(existsAt: string -> bool, name: string) {
    name == [] || existsAt(name)
  }

  /** The scan tests of `findAccountDir`, all on lower-cased names. */
  predicate ScanMatches(dirName: string, wxid: string, cleaned: string) {
    var d, w, c := Lower(dirName), Lower(wxid), Lower(cleaned);
    || d == w || d == c
    || StartsWith(d, w + "_") || StartsWith(d, c + "_")
    || StartsWith(w, d + "_") || StartsWith(c, d + "_")
    || Lower(CleanAccountDirName(dirName)) == w || Lower(CleanAccountDirName(dirName)) == c
  }

  /** A directory entry that passes one of the scan tests. */
  predicate Accepts(e: Entry, wxid: string, cleaned: string) {
    e.isDirectory && ScanMatches(e.name, wxid, cleaned)
  }

  predicate Candidate(e: Entry, wxid: string) {
    Accepts(e, wxid, CleanAccountDirName(wxid))
  }

  /** Entry `i` is the first directory in listing order that the scan accepts. */
  predicate IsFirstCandidate(listing: seq<Entry>, i: int, wxid: string) {
    && 0 <= i < |listing|
    && Candidate(listing[i], wxid)
    && forall j :: 0 <= j < i ==> !Candidate(listing[j], wxid)
  }

  /** What `findAccountDir(baseDir, wxid)` returns, with `existsAt` the
      existence test of paths under `baseDir` and `listing` its entries:
      nothing without a base directory; the id itself
      when it names an entry; else the cleaned id when it differs and names
      an entry; else the first directory the scan accepts, if any. */
  ghost predicate AccountDirOf(baseExists: bool, existsAt: string -> bool, listing: seq<Entry>, wxid: string, r: Option<string>) {
    var cleaned := CleanAccountDirName(wxid);
    if !baseExists then r == None
    else if PathExists(existsAt, wxid) then r == Some(wxid)
    else if cleaned != wxid && PathExists(existsAt, cleaned) then r == Some(cleaned)
    else
      && (r.None? <==> forall i :: 0 <= i < |listing| ==> !Candidate(listing[i], wxid))
      && (r.Some? ==> exists i :: IsFirstCandidate(listing, i, wxid) && r == Some(listing[i].name))
  }

  /** The directory is determined by the listing and the id. */
  lemma AccountDirUnique(baseExists: bool, existsAt: string -> bool, listing: seq<Entry>, wxid: string, r1: Option<string>, r2: Option<string>)
    requires AccountDirOf(baseExists, existsAt, listing, wxid, r1) && AccountDirOf(baseExists, existsAt, listing, wxid, r2)
    ensures r1 == r2
  {
    if r1.Some? && r2.Some? && baseExists && !PathExists(existsAt, wxid) &&
       !(CleanAccountDirName(wxid) != wxid && PathExists(existsAt, CleanAccountDirName(wxid))) {
      var i1 :| IsFirstCandidate(listing, i1, wxid) && r1 == Some(listing[i1].name);
      var i2 :| IsFirstCandidate(listing, i2, wxid) && r2 == Some(listing[i2].name);
      assert !(i1 < i2) && !(i2 < i1);
    }
  }

  method FindAccountDir(baseExists: bool, existsAt: string -> bool, listing: seq<Entry>, wxid: string) returns (r: Option<string>)
    ensures AccountDirOf(baseExists, existsAt, listing, wxid, r)
  {
    if !baseExists {
      return None;
    }
    var cleaned := CleanAccountDirName(wxid);
    if PathExists(existsAt, wxid) {
      return Some(wxid);
    }
    if cleaned != wxid && PathExists(existsAt, cleaned) {
      return Some(cleaned);
    }
    r := ScanListing(listing, wxid);
  }

  /** Step 3 of `findAccountDir`: the first directory entry that passes any
      of the scan tests, in listing order. */
  method ScanListing(listing: seq<Entry>, wxid: string) returns (r: Option<string>)
    ensures r.None? <==> forall i :: 0 <= i < |listing| ==> !Candidate(listing[i], wxid)
    ensures r.Some? ==> exists i :: IsFirstCandidate(listing, i, wxid) && r == Some(listing[i].name)
  {
    var cleaned := CleanAccountDirName(wxid);
    var k := 0;
    while k < |listing|
      invariant 0 <= k <= |listing|
      invariant forall j :: 0 <= j < k ==> !Candidate(listing[j], wxid)
    {
      var entry := listing[k];
      if Accepts(entry, wxid, cleaned) {
        assert IsFirstCandidate(listing, k, wxid);
        return Some(entry.name);
      }
      assert !Candidate(listing[k], wxid);
      k := k + 1;
    }
    return None;
  }

  /** The configured id `wxid_abc123` finds the directory `wxid_abc123_x1y2`
      through the prefix test, when no exact name exists. */
  method ResolvePrefixedDirectory() returns (r: Option<string>)
    ensures r == Some("wxid_abc123_x1y2")
  {
    var listing := [Entry("wxid_abc123_x1y2", true)];
    var existsAt := (name: string) => name == "wxid_abc123_x1y2";
    CleanBareWxidExample();
    PrefixCandidate();
    r := FindAccountDir(true, existsAt, listing, "wxid_abc123");
    assert IsFirstCandidate(listing, 0, "wxid_abc123");
  }

  /** `wxid_abc123_x1y2` passes the prefix test for `wxid_abc123`. */
  lemma PrefixCandidate()
    ensures Candidate(Entry("wxid_abc123_x1y2", true), "wxid_abc123")
  {
    var d, w := "wxid_abc123_x1y2", "wxid_abc123";
    assert Lower(w) == w;
    assert Lower(d)[..12] == w + "_";
    assert StartsWith(Lower(d), Lower(w) + "_");
  }

  /** The shard-file test of `findMessageDbFiles`. */
  predicate IsMessageDbName(name: string) {
    var lower := Lower(name);
    (StartsWith(lower, "msg") || StartsWith(lower, "message")) && EndsWith(lower, ".db")
  }

  /** `findMessageDbFiles`: the listing names that look like message shards,
      in listing order. */
  function FindMessageDbFiles(files: seq<string>): (r: seq<string>)
    ensures |r| <= |files|
    ensures forall f :: f in r <==> f in files && IsMessageDbName(f)
  {
    if files == [] then []
    else (if IsMessageDbName(files[0]) then [files[0]] else []) + FindMessageDbFiles(files[1..])
  }

  /** The filter keeps listing order: filtering two listings one after the
      other gives the shards of the first, then those of the second; a single
      name is kept exactly when it looks like a shard. */
  lemma {:induction false} FindMessageDbFilesAppend(a: seq<string>, b: seq<string>)
    ensures FindMessageDbFiles(a + b) == FindMessageDbFiles(a) + FindMessageDbFiles(b)
    ensures forall f :: FindMessageDbFiles([f]) == if IsMessageDbName(f) then [f] else []
    decreases |a|
  {
    if a == [] {
      assert a + b == b;
    } else {
      assert (a + b)[0] == a[0] && (a + b)[1..] == a[1..] + b;
      FindMessageDbFilesAppend(a[1..], b);
    }
  }
}
