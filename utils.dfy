/** The path and file-name helpers, in their two copies: the shared utilities crate
    (common/utils/src/lib.rs) and the top-level crate (src/utils.rs). The home directory
    lookup is a parameter (None when there is none, or when it is not valid UTF-8), and so
    is chrono's parse of a `%Y-%m-%d_%H-%M-%S%.3f%:z` date: for a text, its whole epoch
    seconds or None. */
module Utils {
  import opened Wrappers
  import opened Text

  const Tilde: string := "~/"
  const TmpDir: string := "/tmp"

  /** Every "~/" of `path`, left to right, replaced by `home` and a '/'. */
  function ExpandHome(path: string, home: string): string {
    Replace(path, Tilde, home + "/")
  }

  /** `replace_home_dir_in_path` of the utilities crate: with no usable home directory it
      falls back to "/tmp". */
  function ReplaceHomeDirShared(path: string, home: Option<string>): (r: string)
    ensures home.None? ==> r == ExpandHome(path, TmpDir)
    ensures home.Some? ==> r == ExpandHome(path, home.value)
  {
    ExpandHome(path, if home.Some? then home.value else TmpDir)
  }

  /** `replace_home_dir_in_path` of the top-level crate: with no usable home directory it
      panics (None). */
  function ReplaceHomeDirTop(path: string, home: Option<string>): (r: Option<string>)
    ensures r.None? <==> home.None?
  {
    if home.Some? then Some(ExpandHome(path, home.value)) else None
  }

  /** The two copies agree whenever there is a home directory; without one, the shared
      copy expands to "/tmp" where the other stops. */
  lemma CopiesAgree(path: string, home: Option<string>)
    ensures home.Some? ==> ReplaceHomeDirTop(path, home) == Some(ReplaceHomeDirShared(path, home))
    ensures home.None? ==> ReplaceHomeDirTop(path, home) == None &&
                           ReplaceHomeDirShared(path, home) == ExpandHome(path, "/tmp")
  {
  }

  /** A leading "~/" becomes the home directory, and the rest is expanded in turn. */
  lemma ExpandLeading(rest: string, home: string)
    ensures ExpandHome(Tilde + rest, home) == home + "/" + ExpandHome(rest, home)
  {
    var s := Tilde + rest;
    assert s[..2] == Tilde && s[2..] == rest;
  }

  /** Text up to a character that is not '~' is kept as it is. */
  lemma ExpandPlainChar(c: char, rest: string, home: string)
    requires c != '~'
    ensures ExpandHome([c] + rest, home) == [c] + ExpandHome(rest, home)
  {
    var s := [c] + rest;
    if |s| >= 2 {
      assert s[..2][0] == c;
    }
    assert s[1..] == rest;
    if |s| < 2 {
      assert rest == [] && ExpandHome(rest, home) == [];
    }
  }

  /** A path with no "~/" in it comes back unchanged. */
  lemma ExpandNothing(path: string, home: string)
    requires !Contains(path, Tilde)
    ensures ExpandHome(path, home) == path
  {
    ReplaceAbsent(path, Tilde, home + "/");
  }

  /** Expansion is not idempotent when the home directory starts with '/': in "~~/" the
      first '~' is kept and the "~/" after it is replaced, which makes a new "~/". */
  lemma ExpandMakesTilde(home: string)
    requires home != [] && home[0] == '/'
    ensures ExpandHome("~~/", home) == "~" + home + "/"
    ensures StartsWith(ExpandHome("~~/", home), Tilde)
  {
    var s := "~~/";
    assert s[..2] != Tilde by {
      assert s[..2][1] == '~';
    }
    assert s[1..] == Tilde + [];
    ExpandLeading([], home);
    assert ExpandHome([], home) == [];
    var r := ExpandHome(s, home);
    assert r == ['~'] + (home + "/" + []);
    assert r[..2] == ['~', home[0]];
  }

  // ---------------------------------------------------------------------------------

  const PngSuffix: string := ".png"

  datatype EpochError = NotPng | ParseFailed

  /** The error texts of `timestamp_to_epoch`. */
  function EpochErrorMessage(e: EpochError): string {
    match e
    case NotPng => "Timestamp does not end with .png"
    case ParseFailed => "Failed to parse timestamp"
  }

  /** `timestamp_to_epoch`, identical in both copies: a name not ending in ".png" is
      refused; otherwise exactly those four characters are removed and the rest parsed as a
      date with its offset, giving whole epoch seconds. */
  function TimestampToEpoch(name: string, parse: string -> Option<int>): (r: Result<int, EpochError>)
    ensures !EndsWith(name, PngSuffix) ==> r == Err(NotPng)
    ensures EndsWith(name, PngSuffix) ==>
              exists stem :: stem + PngSuffix == name &&
                             (r == if parse(stem).Some? then Ok(parse(stem).value) else Err(ParseFailed))
  {
    if !EndsWith(name, PngSuffix) then Err(NotPng)
    else
      var stem := name[..|name| - 4];
      assert stem + PngSuffix == name;
      match parse(stem)
      case None => Err(ParseFailed)
      case Some(secs) => Ok(secs)
  }

  /** The stem parsed is the name without its ".png", and nothing more is removed: a name
      built from a stem and ".png" parses that very stem. */
  lemma TimestampToEpochStem(stem: string, parse: string -> Option<int>)
    ensures TimestampToEpoch(stem + PngSuffix, parse) ==
              if parse(stem).Some? then Ok(parse(stem).value) else Err(ParseFailed)
  {
    var name := stem + PngSuffix;
    assert name[|name| - 4..] == PngSuffix;
    assert name[..|name| - 4] == stem;
  }
}
