/**
 * Version and tag derivation of the build scripts.
 *
 * The git repository is an immutable record: the current branch name, the
 * output of `git describe`, the tags as (name, commit) pairs, the HEAD
 * commit hash, the number of commits since the last tag and the dirty flag.
 *
 * The script's regular expressions are built from literal characters and
 * greedy `\d+` runs. A string is therefore read as a sequence of tokens:
 * each maximal run of digits is one number token, every other character a
 * symbol token. A pattern matches at the start of a string exactly when the
 * string's tokens start with the pattern's tokens (a `\d+` that stopped
 * short of the end of a run would be followed by a digit, which no pattern
 * character accepts). `\d` is an ASCII decimal digit here.
 */
module VersionManager {
  import opened Wrappers

  datatype Tag = Tag(name: string, commit: string)

  datatype Repo = Repo(
    branch: string,
    describe: string,
    tags: seq<Tag>,
    head: string,
    commitsSince: nat,
    dirty: bool)

  /** The ways the script aborts (an exit or a failed assertion). */
  datatype VersionError =
    | DevTagOnMaster          // dev tag described while on master
    | ReleaseTagOffMaster     // release tag described while not on master
    | NoMatchingTag           // describe output matched no tag name
    | NotDevTag               // a dev tag number was asked of another tag
    | NotVersionTag           // the last tag does not start with a version
    | NotOnDevBranch          // a dev tag was to be created off a dev branch
    | TagCreationFailed       // git refused to create the tag (its name exists)

  /** A version `v<major>.<minor>.<patch>`, its components kept as digit strings. */
  datatype Version = Version(major: string, minor: string, patch: string)

  /** A dev tag `v<major>.<minor>.<patch>-dev<dev>`. */
  datatype DevTag = DevTag(version: Version, dev: string)

  /** A maximal run of digits, or one other character. */
  datatype Token = Num(digits: string) | Sym(c: char)

  predicate IsDigit(c: char)
  {
    '0' <= c <= '9'
  }

  predicate AllDigits(s: string)
  {
    forall i :: 0 <= i < |s| ==> IsDigit(s[i])
  }

  /** A nonempty run of digits: what `\d+` matches. */
  predicate IsNumeral(s: string)
  {
    |s| > 0 && AllDigits(s)
  }

  predicate WellFormed(v: Version)
  {
    IsNumeral(v.major) && IsNumeral(v.minor) && IsNumeral(v.patch)
  }

  predicate WellFormedDev(t: DevTag)
  {
    WellFormed(t.version) && IsNumeral(t.dev)
  }

  function VersionText(v: Version): string
  {
    "v" + v.major + "." + v.minor + "." + v.patch
  }

  function DevTagText(t: DevTag): string
  {
    VersionText(t.version) + "-dev" + t.dev
  }

  // ---------------------------------------------------------------------
  // Tokens
  // ---------------------------------------------------------------------

  predicate WellFormedToken(t: Token)
  {
    match t
    case Num(d) => IsNumeral(d)
    case Sym(c) => !IsDigit(c)
  }

  /** Well-formed tokens, no number token directly after another. */
  predicate Valid(ts: seq<Token>)
  {
    (forall i :: 0 <= i < |ts| ==> WellFormedToken(ts[i])) &&
    (forall i, j :: 0 <= i < |ts| && 0 <= j < |ts| && j == i + 1 ==> !(ts[i].Num? && ts[j].Num?))
  }

  function TokenText(t: Token): string
  {
    match t
    case Num(d) => d
    case Sym(c) => [c]
  }

  /** The text a token sequence stands for. */
  function Unlex(ts: seq<Token>): string
  {
    if |ts| == 0 then [] else TokenText(ts[0]) + Unlex(ts[1..])
  }

  /** Length of the longest run of digits at the start of s. */
  function DigitRun(s: string): (n: nat)
    ensures n <= |s| && AllDigits(s[..n])
    ensures n == |s| || !IsDigit(s[n])
  {
    if |s| == 0 || !IsDigit(s[0]) then 0
    else
      var k := DigitRun(s[1..]);
      assert s[..k + 1] == [s[0]] + s[1..][..k];
      k + 1
  }

  lemma ValidCons(t: Token, ts: seq<Token>)
    requires WellFormedToken(t) && Valid(ts)
    requires |ts| == 0 || !(t.Num? && ts[0].Num?)
    ensures Valid([t] + ts)
  {
    var us := [t] + ts;
    forall i, j | 0 <= i < |us| && 0 <= j < |us| && j == i + 1
      ensures !(us[i].Num? && us[j].Num?)
    {
      if i > 0 {
        assert us[i] == ts[i - 1] && us[j] == ts[j - 1];
      }
    }
  }

  /** Reading s as tokens, from the front: the maximal-munch lexer. */
  function Lex(s: string): (ts: seq<Token>)
    ensures Valid(ts)
    ensures |ts| == 0 <==> |s| == 0
    ensures |ts| > 0 ==> (ts[0].Num? <==> IsDigit(s[0]))
    decreases |s|
  {
    if |s| == 0 then []
    else if IsDigit(s[0]) then
      var n := DigitRun(s);
      var rest := Lex(s[n..]);
      ValidCons(Num(s[..n]), rest);
      [Num(s[..n])] + rest
    else
      var rest := Lex(s[1..]);
      ValidCons(Sym(s[0]), rest);
      [Sym(s[0])] + rest
  }

  lemma SplitAt(s: string, n: nat)
    requires n <= |s|
    ensures s[..n] + s[n..] == s
  {
  }

  lemma UnlexCons(t: Token, ts: seq<Token>)
    ensures Unlex([t] + ts) == TokenText(t) + Unlex(ts)
  {
    assert ([t] + ts)[1..] == ts;
  }

  /** The tokens of s spell s. */
  lemma {:induction false} LexUnlex(s: string)
    ensures Unlex(Lex(s)) == s
    decreases |s|
  {
    if |s| > 0 {
      if IsDigit(s[0]) {
        var n := DigitRun(s);
        LexUnlex(s[n..]);
        UnlexCons(Num(s[..n]), Lex(s[n..]));
        SplitAt(s, n);
      } else {
        LexUnlex(s[1..]);
        UnlexCons(Sym(s[0]), Lex(s[1..]));
        SplitAt(s, 1);
      }
    }
  }

  lemma Assoc<T>(a: seq<T>, b: seq<T>, c: seq<T>)
    ensures (a + b) + c == a + (b + c)
  {
  }

  /** Spelling is a homomorphism. */
  lemma {:induction false} UnlexAppend(a: seq<Token>, b: seq<Token>)
    ensures Unlex(a + b) == Unlex(a) + Unlex(b)
    decreases |a|
  {
    if |a| == 0 {
      assert a + b == b;
    } else {
      assert a + b == [a[0]] + (a[1..] + b);
      assert a == [a[0]] + a[1..];
      UnlexAppend(a[1..], b);
      UnlexCons(a[0], a[1..] + b);
      UnlexCons(a[0], a[1..]);
      Assoc(TokenText(a[0]), Unlex(a[1..]), Unlex(b));
    }
  }

  /** The text of valid tokens starts as the first token's text does. */
  lemma UnlexFirst(ts: seq<Token>)
    requires Valid(ts) && |ts| > 0
    ensures |Unlex(ts)| > 0 && (IsDigit(Unlex(ts)[0]) <==> ts[0].Num?)
  {
    assert ts == [ts[0]] + ts[1..];
    UnlexCons(ts[0], ts[1..]);
    assert WellFormedToken(ts[0]);
  }

  /** A leading run of digits that ends before a non-digit is the whole run. */
  lemma {:induction false} DigitRunOf(d: string, rest: string)
    requires AllDigits(d)
    requires |rest| == 0 || !IsDigit(rest[0])
    ensures DigitRun(d + rest) == |d|
    decreases |d|
  {
    if |d| > 0 {
      assert (d + rest)[1..] == d[1..] + rest;
      DigitRunOf(d[1..], rest);
    } else {
      assert d + rest == rest;
    }
  }

  /** Valid tokens are read back from their text. */
  lemma {:induction false} LexOfUnlex(ts: seq<Token>)
    requires Valid(ts)
    ensures Lex(Unlex(ts)) == ts
    decreases |ts|
  {
    if |ts| > 0 {
      var t, rest := ts[0], ts[1..];
      assert ts == [t] + rest;
      assert Valid(rest) by {
        forall i, j | 0 <= i < |rest| && 0 <= j < |rest| && j == i + 1
          ensures !(rest[i].Num? && rest[j].Num?)
        {
          assert rest[i] == ts[i + 1] && rest[j] == ts[j + 1];
        }
      }
      LexOfUnlex(rest);
      UnlexCons(t, rest);
      var s := Unlex(ts);
      var tail := Unlex(rest);
      assert WellFormedToken(t);
      if |rest| > 0 {
        UnlexFirst(rest);
      }
      match t
      case Num(d) =>
        DigitRunOf(d, tail);
        assert s[..|d|] == d && s[|d|..] == tail;
      case Sym(c) =>
        assert s[1..] == tail;
    }
  }

  /** Tokens that may follow each other: no number directly after a number. */
  predicate Joinable(a: seq<Token>, b: seq<Token>)
  {
    |a| == 0 || |b| == 0 || !(a[|a| - 1].Num? && b[0].Num?)
  }

  lemma ValidAppend(a: seq<Token>, b: seq<Token>)
    requires Valid(a) && Valid(b) && Joinable(a, b)
    ensures Valid(a + b)
  {
    var ab := a + b;
    forall i, j | 0 <= i < |ab| && 0 <= j < |ab| && j == i + 1
      ensures !(ab[i].Num? && ab[j].Num?)
    {
      if j < |a| {
        assert ab[i] == a[i] && ab[j] == a[j];
      } else if i >= |a| {
        assert ab[i] == b[i - |a|] && ab[j] == b[j - |a|];
      }
    }
  }

  /** Lexing the text of valid tokens followed by more text, where no digit run straddles the seam. */
  lemma LexAfter(ts: seq<Token>, rest: string)
    requires Valid(ts) && |ts| > 0
    requires ts[|ts| - 1].Sym? || |rest| == 0 || !IsDigit(rest[0])
    ensures Lex(Unlex(ts) + rest) == ts + Lex(rest)
  {
    var rs := Lex(rest);
    ValidAppend(ts, rs);
    UnlexAppend(ts, rs);
    LexUnlex(rest);
    LexOfUnlex(ts + rs);
  }

  lemma UnlexSingle(t: Token)
    ensures Unlex([t]) == TokenText(t)
  {
    UnlexCons(t, []);
    assert [t] + [] == [t];
  }

  // ---------------------------------------------------------------------
  // The three patterns
  // ---------------------------------------------------------------------

  /** The tokens of `v<major>.<minor>.<patch>`. */
  function VersionTokens(v: Version): seq<Token>
  {
    [Sym('v'), Num(v.major), Sym('.'), Num(v.minor), Sym('.'), Num(v.patch)]
  }

  /** The tokens of `-dev<n>` after a version. */
  function DevSuffixTokens(dev: string): seq<Token>
  {
    [Sym('-'), Sym('d'), Sym('e'), Sym('v'), Num(dev)]
  }

  function DevTagTokens(t: DevTag): seq<Token>
  {
    VersionTokens(t.version) + DevSuffixTokens(t.dev)
  }

  /** The tokens of the prefix `dev_` of a dev branch name. */
  function BranchPrefixTokens(): seq<Token>
  {
    [Sym('d'), Sym('e'), Sym('v'), Sym('_')]
  }

  lemma VersionTokensText(v: Version)
    ensures Unlex(VersionTokens(v)) == VersionText(v)
  {
    var ts := VersionTokens(v);
    assert ts == [ts[0]] + [ts[1]] + [ts[2]] + [ts[3]] + [ts[4]] + [ts[5]];
    UnlexAppend([ts[0]] + [ts[1]] + [ts[2]] + [ts[3]] + [ts[4]], [ts[5]]);
    UnlexAppend([ts[0]] + [ts[1]] + [ts[2]] + [ts[3]], [ts[4]]);
    UnlexAppend([ts[0]] + [ts[1]] + [ts[2]], [ts[3]]);
    UnlexAppend([ts[0]] + [ts[1]], [ts[2]]);
    UnlexAppend([ts[0]], [ts[1]]);
    UnlexSingle(ts[0]);
    UnlexSingle(ts[1]);
    UnlexSingle(ts[2]);
    UnlexSingle(ts[3]);
    UnlexSingle(ts[4]);
    UnlexSingle(ts[5]);
  }

  lemma DevSuffixText(dev: string)
    ensures Unlex(DevSuffixTokens(dev)) == "-dev" + dev
  {
    var ts := DevSuffixTokens(dev);
    assert ts == [ts[0]] + [ts[1]] + [ts[2]] + [ts[3]] + [ts[4]];
    UnlexAppend([ts[0]] + [ts[1]] + [ts[2]] + [ts[3]], [ts[4]]);
    UnlexAppend([ts[0]] + [ts[1]] + [ts[2]], [ts[3]]);
    UnlexAppend([ts[0]] + [ts[1]], [ts[2]]);
    UnlexAppend([ts[0]], [ts[1]]);
    UnlexSingle(ts[0]);
    UnlexSingle(ts[1]);
    UnlexSingle(ts[2]);
    UnlexSingle(ts[3]);
    UnlexSingle(ts[4]);
  }

  lemma DevTagTokensText(t: DevTag)
    ensures Unlex(DevTagTokens(t)) == DevTagText(t)
  {
    UnlexAppend(VersionTokens(t.version), DevSuffixTokens(t.dev));
    VersionTokensText(t.version);
    DevSuffixText(t.dev);
    Assoc(VersionText(t.version), "-dev", t.dev);
  }

  lemma BranchPrefixText()
    ensures Unlex(BranchPrefixTokens()) == "dev_"
  {
    var ts := BranchPrefixTokens();
    assert ts == [ts[0]] + [ts[1]] + [ts[2]] + [ts[3]];
    UnlexAppend([ts[0]] + [ts[1]] + [ts[2]], [ts[3]]);
    UnlexAppend([ts[0]] + [ts[1]], [ts[2]]);
    UnlexAppend([ts[0]], [ts[1]]);
    UnlexSingle(ts[0]);
    UnlexSingle(ts[1]);
    UnlexSingle(ts[2]);
    UnlexSingle(ts[3]);
  }

  lemma VersionTokensValid(v: Version)
    requires WellFormed(v)
    ensures Valid(VersionTokens(v))
  {
  }

  lemma DevTagTokensValid(t: DevTag)
    requires WellFormedDev(t)
    ensures Valid(DevTagTokens(t))
  {
    VersionTokensValid(t.version);
    ValidAppend(VersionTokens(t.version), DevSuffixTokens(t.dev));
  }

  /** Tokens that start with a version. */
  predicate StartsWithVersion(ts: seq<Token>)
  {
    |ts| >= 6 && ts[0] == Sym('v') && ts[1].Num? && ts[2] == Sym('.') &&
    ts[3].Num? && ts[4] == Sym('.') && ts[5].Num?
  }

  function VersionAt(ts: seq<Token>): Version
    requires StartsWithVersion(ts)
  {
    Version(ts[1].digits, ts[3].digits, ts[5].digits)
  }

  /** Tokens that start with a dev tag. */
  predicate StartsWithDevTag(ts: seq<Token>)
  {
    StartsWithVersion(ts) && |ts| >= 11 && ts[6] == Sym('-') && ts[7] == Sym('d') &&
    ts[8] == Sym('e') && ts[9] == Sym('v') && ts[10].Num?
  }

  /**
   * `re.match(r"v\d+\.\d+\.\d+", s)`: the version at the start of s. What
   * it finds is a version whose text starts s and is not followed by a digit.
   */
  function ParseVersion(s: string): (r: Option<Version>)
    ensures r.Some? ==>
      WellFormed(r.value) && VersionText(r.value) <= s &&
      (|VersionText(r.value)| == |s| || !IsDigit(s[|VersionText(r.value)|]))
  {
    var ts := Lex(s);
    if StartsWithVersion(ts) then VersionPrefixSound(s); Some(VersionAt(ts)) else None
  }

  /** `re.match(r"v\d+\.\d+\.\d+-dev\d+", s)`: the dev tag at the start of s. */
  function ParseDevTag(s: string): (r: Option<DevTag>)
    ensures r.Some? ==> ParseVersion(s) == Some(r.value.version)
  {
    var ts := Lex(s);
    if StartsWithDevTag(ts) then Some(DevTag(VersionAt(ts), ts[10].digits)) else None
  }

  lemma SplitTokens(ts: seq<Token>, k: nat)
    requires k <= |ts|
    ensures ts[..k] + ts[k..] == ts
  {
  }

  /** A suffix of valid tokens is valid. */
  lemma ValidSuffix(ts: seq<Token>, k: nat)
    requires Valid(ts) && k <= |ts|
    ensures Valid(ts[k..])
  {
    var us := ts[k..];
    forall i, j | 0 <= i < |us| && 0 <= j < |us| && j == i + 1
      ensures !(us[i].Num? && us[j].Num?)
    {
      assert us[i] == ts[k + i] && us[j] == ts[k + j];
    }
  }

  /** The text read by a successful match, and the rest of the string. */
  lemma MatchedPrefix(s: string, k: nat, text: string)
    requires k <= |Lex(s)| && Unlex(Lex(s)[..k]) == text
    requires k == |Lex(s)| || Lex(s)[k].Sym?
    ensures text <= s && (|text| == |s| || !IsDigit(s[|text|]))
  {
    var ts := Lex(s);
    LexUnlex(s);
    SplitTokens(ts, k);
    UnlexAppend(ts[..k], ts[k..]);
    if k < |ts| {
      ValidSuffix(ts, k);
      UnlexFirst(ts[k..]);
    } else {
      assert |ts[k..]| == 0;
    }
  }

  /** Tokens that start with a version come from a version text at the start of s, not followed by a digit. */
  lemma VersionPrefixSound(s: string)
    requires StartsWithVersion(Lex(s))
    ensures var v := VersionAt(Lex(s));
      WellFormed(v) && VersionText(v) <= s && (|VersionText(v)| == |s| || !IsDigit(s[|VersionText(v)|]))
  {
    var ts := Lex(s);
    var v := VersionAt(ts);
    assert ts[..6] == VersionTokens(v);
    VersionTokensText(v);
    assert WellFormedToken(ts[1]) && WellFormedToken(ts[3]) && WellFormedToken(ts[5]);
    if |ts| > 6 {
      assert !(ts[5].Num? && ts[6].Num?);
    }
    MatchedPrefix(s, 6, VersionText(v));
  }

  /** A version text followed by anything but a digit is found by the version pattern. */
  lemma ParseVersionComplete(v: Version, rest: string)
    requires WellFormed(v)
    requires |rest| == 0 || !IsDigit(rest[0])
    ensures ParseVersion(VersionText(v) + rest) == Some(v)
  {
    VersionTokensValid(v);
    VersionTokensText(v);
    LexAfter(VersionTokens(v), rest);
  }

  /** The version pattern, stated as a property of the text. */
  lemma ParseVersionIff(s: string, v: Version)
    ensures ParseVersion(s) == Some(v) <==>
      WellFormed(v) && VersionText(v) <= s && (|VersionText(v)| == |s| || !IsDigit(s[|VersionText(v)|]))
  {
    var n := |VersionText(v)|;
    if WellFormed(v) && VersionText(v) <= s && (n == |s| || !IsDigit(s[n])) {
      assert s == VersionText(v) + s[n..];
      ParseVersionComplete(v, s[n..]);
    }
  }

  /** What the dev tag pattern finds is a dev tag whose text starts s and is not followed by a digit. */
  lemma ParseDevTagSound(s: string)
    requires ParseDevTag(s).Some?
    ensures var t := ParseDevTag(s).value;
      WellFormedDev(t) && DevTagText(t) <= s && (|DevTagText(t)| == |s| || !IsDigit(s[|DevTagText(t)|]))
  {
    var ts := Lex(s);
    var t := ParseDevTag(s).value;
    assert ts[..11] == DevTagTokens(t);
    DevTagTokensText(t);
    assert WellFormedToken(ts[1]) && WellFormedToken(ts[3]) && WellFormedToken(ts[5]) && WellFormedToken(ts[10]);
    if |ts| > 11 {
      assert !(ts[10].Num? && ts[11].Num?);
    }
    MatchedPrefix(s, 11, DevTagText(t));
  }

  /** A dev tag text followed by anything but a digit is found by the dev tag pattern. */
  lemma ParseDevTagComplete(t: DevTag, rest: string)
    requires WellFormedDev(t)
    requires |rest| == 0 || !IsDigit(rest[0])
    ensures ParseDevTag(DevTagText(t) + rest) == Some(t)
  {
    DevTagTokensValid(t);
    DevTagTokensText(t);
    LexAfter(DevTagTokens(t), rest);
    DevTagTokensStart(t, Lex(rest));
  }

  lemma DevTagTokensStart(t: DevTag, more: seq<Token>)
    ensures var ts := DevTagTokens(t) + more;
      StartsWithDevTag(ts) && VersionAt(ts) == t.version && ts[10].digits == t.dev
  {
  }

  /** The dev tag pattern, stated as a property of the text. */
  lemma ParseDevTagIff(s: string, t: DevTag)
    ensures ParseDevTag(s) == Some(t) <==>
      WellFormedDev(t) && DevTagText(t) <= s && (|DevTagText(t)| == |s| || !IsDigit(s[|DevTagText(t)|]))
  {
    if ParseDevTag(s) == Some(t) {
      ParseDevTagSound(s);
    }
    var n := |DevTagText(t)|;
    if WellFormedDev(t) && DevTagText(t) <= s && (n == |s| || !IsDigit(s[n])) {
      assert s == DevTagText(t) + s[n..];
      ParseDevTagComplete(t, s[n..]);
    }
  }

  /** `re.match(r"^dev_v\d+\.\d+\.\d+$", name)`; `$` also matches before a final newline. */
  predicate IsDevBranchName(name: string)
  {
    var ts := Lex(name);
    |ts| >= 10 && ts[..4] == BranchPrefixTokens() && StartsWithVersion(ts[4..]) &&
    (|ts| == 10 || (|ts| == 11 && ts[10] == Sym('\n')))
  }

  /** The branch names the dev-branch pattern describes, stated on the text. */
  ghost predicate DevBranchSpec(name: string)
  {
    exists v: Version :: WellFormed(v) &&
      (name == "dev_" + VersionText(v) || name == "dev_" + VersionText(v) + "\n")
  }

  /** The tokens of a dev branch name, with or without the final newline. */
  function BranchTokens(v: Version, newline: bool): seq<Token>
  {
    BranchPrefixTokens() + VersionTokens(v) + (if newline then [Sym('\n')] else [])
  }

  lemma BranchTokensText(v: Version, newline: bool)
    requires WellFormed(v)
    ensures Valid(BranchTokens(v, newline))
    ensures Unlex(BranchTokens(v, newline)) == "dev_" + VersionText(v) + (if newline then "\n" else "")
  {
    var nl: seq<Token> := if newline then [Sym('\n')] else [];
    VersionTokensValid(v);
    ValidAppend(BranchPrefixTokens(), VersionTokens(v));
    ValidAppend(BranchPrefixTokens() + VersionTokens(v), nl);
    UnlexAppend(BranchPrefixTokens() + VersionTokens(v), nl);
    UnlexAppend(BranchPrefixTokens(), VersionTokens(v));
    BranchPrefixText();
    VersionTokensText(v);
    if newline {
      UnlexSingle(Sym('\n'));
    } else {
      assert Unlex(nl) == "";
    }
  }

  /** What the dev-branch test accepts is a dev branch name. */
  lemma DevBranchSound(name: string)
    requires IsDevBranchName(name)
    ensures DevBranchSpec(name)
  {
    var ts := Lex(name);
    var v := VersionAt(ts[4..]);
    var newline := |ts| == 11;
    assert WellFormedToken(ts[5]) && WellFormedToken(ts[7]) && WellFormedToken(ts[9]);
    assert ts == BranchTokens(v, newline);
    BranchTokensText(v, newline);
    LexUnlex(name);
    if !newline {
      assert name == "dev_" + VersionText(v) + "";
    }
  }

  /** Every dev branch name passes the dev-branch test. */
  lemma DevBranchComplete(v: Version, newline: bool)
    requires WellFormed(v)
    ensures IsDevBranchName("dev_" + VersionText(v) + (if newline then "\n" else ""))
  {
    BranchTokensText(v, newline);
    LexOfUnlex(BranchTokens(v, newline));
    var ts := BranchTokens(v, newline);
    assert ts[..4] == BranchPrefixTokens();
    assert ts[4..][..6] == VersionTokens(v);
  }

  /** The dev-branch test accepts exactly the names `dev_vA.B.C`, optionally followed by a newline. */
  lemma DevBranchNameIff(name: string)
    ensures IsDevBranchName(name) <==> DevBranchSpec(name)
  {
    if IsDevBranchName(name) {
      DevBranchSound(name);
    }
    if DevBranchSpec(name) {
      var v: Version :| WellFormed(v) &&
        (name == "dev_" + VersionText(v) || name == "dev_" + VersionText(v) + "\n");
      if name == "dev_" + VersionText(v) {
        DevBranchComplete(v, false);
        assert name + "" == name;
      } else {
        DevBranchComplete(v, true);
      }
    }
  }
  // ---------------------------------------------------------------------
  // Decimal numbers
  // ---------------------------------------------------------------------

  function DigitValue(c: char): nat
    requires IsDigit(c)
  {
    (c as int) - ('0' as int)
  }

  /** What Python's `int()` gives for a digit string. */
  function DecimalValue(s: string): nat
    requires AllDigits(s)
  {
    if |s| == 0 then 0 else DecimalValue(s[..|s| - 1]) * 10 + DigitValue(s[|s| - 1])
  }

  function DigitChar(d: nat): (c: char)
    requires d < 10
    ensures IsDigit(c) && DigitValue(c) == d
  {
    ('0' as int + d) as char
  }

  /** What Python's `str()` gives for a natural number: its decimal digits without leading zeros. */
  function NatToString(n: nat): (s: string)
    ensures IsNumeral(s)
    ensures s[0] != '0' || |s| == 1
    decreases n
  {
    if n < 10 then [DigitChar(n)] else NatToString(n / 10) + [DigitChar(n % 10)]
  }

  /** Reading back the decimal digits of n gives n. */
  lemma {:induction false} NatToStringRoundTrip(n: nat)
    ensures DecimalValue(NatToString(n)) == n
    decreases n
  {
    if n >= 10 {
      var s := NatToString(n / 10);
      NatToStringRoundTrip(n / 10);
      assert (s + [DigitChar(n % 10)])[..|s|] == s;
    }
  }

  // ---------------------------------------------------------------------
  // The repository queries
  // ---------------------------------------------------------------------

  predicate OnDevBranch(r: Repo)
  {
    IsDevBranchName(r.branch)
  }

  predicate OnMasterBranch(r: Repo)
  {
    r.branch == "master"
  }

  /** No branch is both: a dev branch name starts with `d`. */
  lemma DevIsNotMaster(r: Repo)
    requires OnDevBranch(r)
    ensures !OnMasterBranch(r)
  {
    DevBranchSound(r.branch);
    var v: Version :| WellFormed(v) &&
      (r.branch == "dev_" + VersionText(v) || r.branch == "dev_" + VersionText(v) + "\n");
    assert r.branch[0] == 'd';
  }

  /** The first tag with the given name, if any. */
  function FindTag(tags: seq<Tag>, name: string): (r: Option<Tag>)
    ensures r.Some? ==> r.value in tags && r.value.name == name
    ensures r.None? <==> (forall i :: 0 <= i < |tags| ==> tags[i].name != name)
  {
    if |tags| == 0 then None
    else if tags[0].name == name then Some(tags[0])
    else
      var r := FindTag(tags[1..], name);
      assert forall i :: 1 <= i < |tags| ==> tags[1..][i - 1] == tags[i];
      r
  }

  /**
   * The tag name taken from the describe output. The dev pattern is tried
   * first, since every dev tag also starts with a release version; a dev
   * tag on master and a release tag off master are refused.
   */
  function DescribedTagName(r: Repo): (res: Result<string, VersionError>)
  {
    match ParseDevTag(r.describe)
    case Some(t) => if OnMasterBranch(r) then Failure(DevTagOnMaster) else Success(DevTagText(t))
    case None =>
      match ParseVersion(r.describe)
      case Some(v) => if OnMasterBranch(r) then Success(VersionText(v)) else Failure(ReleaseTagOffMaster)
      case None => Failure(NoMatchingTag)
  }

  /** `getLastTag`: the first tag named as the describe output says. */
  function LastTag(r: Repo): (res: Result<Tag, VersionError>)
    ensures res.Success? ==> res.value in r.tags
    ensures res.Success? ==> DescribedTagName(r).Success? && res.value.name == DescribedTagName(r).value
    ensures res.Failure? ==> DescribedTagName(r).Failure? || FindTag(r.tags, DescribedTagName(r).value).None?
  {
    match DescribedTagName(r)
    case Failure(e) => Failure(e)
    case Success(name) =>
      match FindTag(r.tags, name)
      case None => Failure(NoMatchingTag)
      case Some(tag) => Success(tag)
  }

  /** The classification of the describe output, stated as its outcomes. */
  lemma DescribedTagNameOutcomes(r: Repo)
    ensures ParseDevTag(r.describe).Some? && OnMasterBranch(r) ==> DescribedTagName(r) == Failure(DevTagOnMaster)
    ensures ParseDevTag(r.describe).None? && ParseVersion(r.describe).Some? && !OnMasterBranch(r)
      ==> DescribedTagName(r) == Failure(ReleaseTagOffMaster)
    ensures ParseVersion(r.describe).None? ==> DescribedTagName(r) == Failure(NoMatchingTag)
    ensures DescribedTagName(r).Success? && OnMasterBranch(r)
      ==> DescribedTagName(r).value == VersionText(ParseVersion(r.describe).value)
    ensures DescribedTagName(r).Success? && !OnMasterBranch(r)
      ==> ParseDevTag(r.describe).Some? && DescribedTagName(r).value == DevTagText(ParseDevTag(r.describe).value)
  {
  }

  /** The position of the last number token: `re.findall(r"\d+", s)[-1]` is its digit run. */
  function LastNumIndex(ts: seq<Token>): (r: Option<nat>)
    ensures r.Some? ==> r.value < |ts| && ts[r.value].Num? && forall j :: r.value < j < |ts| ==> ts[j].Sym?
    ensures r.None? ==> forall j :: 0 <= j < |ts| ==> ts[j].Sym?
  {
    if |ts| == 0 then None
    else if ts[|ts| - 1].Num? then Some(|ts| - 1)
    else LastNumIndex(ts[..|ts| - 1])
  }

  /** `getDevTagNumber`: the last digit run of a tag name that starts like a dev tag. */
  function DevTagNumber(tag: Tag): (res: Result<nat, VersionError>)
    ensures res.Failure? <==> ParseDevTag(tag.name).None?
    ensures res.Success? ==> ParseVersion(tag.name).Some?
  {
    if ParseDevTag(tag.name).None? then Failure(NotDevTag)
    else
      var ts := Lex(tag.name);
      assert ts[10].Num?;
      var k := LastNumIndex(ts).value;
      assert WellFormedToken(ts[k]);
      Success(DecimalValue(ts[k].digits))
  }

  /** The number of a tag named exactly like a dev tag is its dev numeral. */
  lemma DevTagNumberOf(t: DevTag, commit: string)
    requires WellFormedDev(t)
    ensures DevTagNumber(Tag(DevTagText(t), commit)) == Success(DecimalValue(t.dev))
  {
    DevTagTokensValid(t);
    DevTagTokensText(t);
    LexOfUnlex(DevTagTokens(t));
    DevTagTokensStart(t, []);
    assert DevTagTokens(t) + [] == DevTagTokens(t);
  }

  /** Off master the last tag is a dev tag, so its number parses. */
  lemma LastTagIsDevTag(r: Repo)
    requires !OnMasterBranch(r) && LastTag(r).Success?
    ensures var t := ParseDevTag(r.describe).value;
      ParseDevTag(r.describe).Some? && LastTag(r).value.name == DevTagText(t) &&
      DevTagNumber(LastTag(r).value) == Success(DecimalValue(t.dev))
  {
    DescribedTagNameOutcomes(r);
    var t := ParseDevTag(r.describe).value;
    DevTagNumberOf(t, LastTag(r).value.commit);
  }

  /** `getCommitsSinceLastTag`: fails exactly as finding the last tag does. */
  function CommitsSinceLastTag(r: Repo): (res: Result<nat, VersionError>)
    ensures res.Failure? <==> LastTag(r).Failure?
    ensures res.Failure? ==> res.error == LastTag(r).error
    ensures res.Success? ==> res.value == r.commitsSince
  {
    match LastTag(r)
    case Failure(e) => Failure(e)
    case Success(_) => Success(r.commitsSince)
  }

  /** The name of a new dev tag: the last tag's version, `-dev` and the advanced number. */
  function NewDevTagName(v: Version, number: nat): (name: string)
  {
    DevTagText(DevTag(v, NatToString(number)))
  }

  /**
   * The tagging step once the last tag and its number are known: nothing
   * when the last tag is on HEAD, otherwise a tag on HEAD named with the
   * advanced number, which git refuses when the name exists.
   */
  function TagHead(r: Repo, last: Tag, number: nat): (res: Result<(Repo, Option<Tag>), VersionError>)
    requires ParseVersion(last.name).Some?
  {
    if last.commit == r.head then Success((r, None))
    else
      var name := NewDevTagName(ParseVersion(last.name).value, number + r.commitsSince);
      if FindTag(r.tags, name).Some? then Failure(TagCreationFailed)
      else
        var tag := Tag(name, r.head);
        Success((r.(tags := r.tags + [tag]), Some(tag)))
  }

  /**
   * `createDevTag`: on a dev branch, tag HEAD with the last dev number plus
   * the commits since the last tag, unless the last tag is on HEAD already.
   * Returns the repository after the step and the tag created, if any.
   */
  function CreateDevTag(r: Repo): (res: Result<(Repo, Option<Tag>), VersionError>)
    ensures res.Success? ==> OnDevBranch(r) && LastTag(r).Success?
    ensures res.Success? && res.value.1.Some? ==>
      var tag := res.value.1.value;
      tag.commit == r.head && LastTag(r).value.commit != r.head &&
      res.value.0 == r.(tags := r.tags + [tag]) &&
      forall i :: 0 <= i < |r.tags| ==> r.tags[i].name != tag.name
    ensures res.Success? && res.value.1.None? ==> res.value.0 == r && LastTag(r).value.commit == r.head
  {
    if !OnDevBranch(r) then Failure(NotOnDevBranch)
    else match LastTag(r)
      case Failure(e) => Failure(e)
      case Success(last) =>
        match DevTagNumber(last)
        case Failure(e) => Failure(e)
        case Success(number) => TagHead(r, last, number)
  }

  /** On a dev branch with a last tag, creating a dev tag is the tagging step with the last tag's dev number. */
  lemma CreateDevTagOnDevBranch(r: Repo, last: Tag)
    requires OnDevBranch(r) && LastTag(r) == Success(last)
    ensures DevTagNumber(last).Success?
    ensures CreateDevTag(r) == TagHead(r, last, DevTagNumber(last).value)
  {
    DevIsNotMaster(r);
    LastTagIsDevTag(r);
  }

  /** The outcomes of creating a dev tag: never a number parse failure, and no tag exactly when the last one is on HEAD. */
  lemma CreateDevTagOutcomes(r: Repo)
    ensures !OnDevBranch(r) ==> CreateDevTag(r) == Failure(NotOnDevBranch)
    ensures OnDevBranch(r) && LastTag(r).Failure? ==> CreateDevTag(r) == Failure(LastTag(r).error)
    ensures CreateDevTag(r).Failure? ==> CreateDevTag(r).error != NotDevTag
    ensures CreateDevTag(r).Success? ==> (CreateDevTag(r).value.1.None? <==> LastTag(r).value.commit == r.head)
    ensures CreateDevTag(r).Success? && CreateDevTag(r).value.1.None? ==> CreateDevTag(r).value.0 == r
  {
    if OnDevBranch(r) && LastTag(r).Success? {
      CreateDevTagOnDevBranch(r, LastTag(r).value);
    }
  }

  /** A new dev tag name reads back as the version and the number it was made from. */
  lemma NewDevTagNameRoundTrip(v: Version, number: nat, commit: string)
    requires WellFormed(v)
    ensures DevTagNumber(Tag(NewDevTagName(v, number), commit)) == Success(number)
    ensures ParseVersion(NewDevTagName(v, number)) == Some(v)
  {
    var t := DevTag(v, NatToString(number));
    DevTagNumberOf(t, commit);
    NatToStringRoundTrip(number);
    ParseDevTagComplete(t, "");
    assert DevTagText(t) + "" == DevTagText(t);
  }

  /**
   * A tag the tagging step creates is on HEAD, is appended under a fresh
   * name, carries the advanced number and the last tag's version.
   */
  lemma TagHeadNumbering(r: Repo, last: Tag, number: nat)
    requires ParseVersion(last.name).Some?
    requires TagHead(r, last, number).Success? && TagHead(r, last, number).value.1.Some?
    ensures var tag := TagHead(r, last, number).value.1.value;
      tag.commit == r.head &&
      TagHead(r, last, number).value.0.tags == r.tags + [tag] &&
      (forall i :: 0 <= i < |r.tags| ==> r.tags[i].name != tag.name) &&
      DevTagNumber(tag) == Success(number + r.commitsSince) &&
      ParseVersion(tag.name) == ParseVersion(last.name)
  {
    var v := ParseVersion(last.name).value;
    TagHeadCreated(r, last, number);
    NamedTagRoundTrip(TagHead(r, last, number).value.1.value, v, number + r.commitsSince);
  }

  lemma NamedTagRoundTrip(tag: Tag, v: Version, k: nat)
    requires WellFormed(v) && tag.name == NewDevTagName(v, k)
    ensures DevTagNumber(tag) == Success(k) && ParseVersion(tag.name) == Some(v)
  {
    NewDevTagNameRoundTrip(v, k, tag.commit);
  }

  /** The tag the tagging step creates, by name. */
  lemma TagHeadCreated(r: Repo, last: Tag, number: nat)
    requires ParseVersion(last.name).Some?
    requires TagHead(r, last, number).Success? && TagHead(r, last, number).value.1.Some?
    ensures TagHead(r, last, number).value.1.value
         == Tag(NewDevTagName(ParseVersion(last.name).value, number + r.commitsSince), r.head)
  {
    var name := NewDevTagName(ParseVersion(last.name).value, number + r.commitsSince);
    assert last.commit != r.head;
    assert FindTag(r.tags, name).None?;
  }

  /**
   * A created dev tag is on HEAD, is appended to the tags under a fresh
   * name, its dev number is the last tag's number advanced by the commits
   * since, and its version is the last tag's version.
   */
  lemma CreateDevTagNumbering(r: Repo)
    requires CreateDevTag(r).Success? && CreateDevTag(r).value.1.Some?
    ensures LastTag(r).Success? && DevTagNumber(LastTag(r).value).Success?
    ensures var tag := CreateDevTag(r).value.1.value;
      DevTagNumber(tag) == Success(DevTagNumber(LastTag(r).value).value + r.commitsSince)
    ensures var tag := CreateDevTag(r).value.1.value;
      ParseVersion(tag.name) == ParseVersion(LastTag(r).value.name)
  {
    var last := LastTag(r).value;
    CreateDevTagOnDevBranch(r, last);
    var number := DevTagNumber(last).value;
    var tag := TagHead(r, last, number).value.1.value;
    CreatedTag(r, last, number, tag);
    assert CreateDevTag(r).value.1.value == tag;
  }

  /** The tag created on a dev branch, stated of the tag itself. */
  lemma CreatedTag(r: Repo, last: Tag, number: nat, tag: Tag)
    requires ParseVersion(last.name).Some?
    requires TagHead(r, last, number).Success? && TagHead(r, last, number).value.1 == Some(tag)
    ensures tag.commit == r.head && TagHead(r, last, number).value.0.tags == r.tags + [tag]
    ensures forall i :: 0 <= i < |r.tags| ==> r.tags[i].name != tag.name
    ensures DevTagNumber(tag) == Success(number + r.commitsSince)
    ensures ParseVersion(tag.name) == ParseVersion(last.name)
  {
    TagHeadNumbering(r, last, number);
  }

  // ---------------------------------------------------------------------
  // The version string
  // ---------------------------------------------------------------------

  /** `getVersionNumber`: the version at the start of the last tag's name, with its `v`. */
  function VersionNumber(r: Repo): (res: Result<string, VersionError>)
  {
    match LastTag(r)
    case Failure(e) => Failure(e)
    case Success(tag) =>
      match ParseVersion(tag.name)
      case None => Failure(NotVersionTag)
      case Some(v) => Success(VersionText(v))
  }

  /** The version number is found whenever the last tag is, and is that tag's version. */
  lemma VersionNumberOfLastTag(r: Repo)
    ensures VersionNumber(r).Failure? <==> LastTag(r).Failure?
    ensures VersionNumber(r).Success? ==>
      VersionNumber(r).value == VersionText(ParseVersion(LastTag(r).value.name).value)
  {
    if LastTag(r).Success? {
      var name := LastTag(r).value.name;
      DescribedTagNameOutcomes(r);
      if OnMasterBranch(r) {
        var v := ParseVersion(r.describe).value;
        ParseVersionComplete(v, "");
        assert VersionText(v) + "" == VersionText(v);
      } else {
        var t := ParseDevTag(r.describe).value;
        ParseDevTagComplete(t, "");
        assert DevTagText(t) + "" == DevTagText(t);
      }
    }
  }

  /** `getDevEnding`: `-dev<N>` off master, then `-<commits since>`, then `+` when dirty. */
  function DevEnding(r: Repo): (res: Result<string, VersionError>)
  {
    var dev: Result<string, VersionError> :=
      if OnMasterBranch(r) then Success("")
      else match LastTag(r)
        case Failure(e) => Failure(e)
        case Success(tag) =>
          match DevTagNumber(tag)
          case Failure(e) => Failure(e)
          case Success(n) => Success("-dev" + NatToString(n));
    match dev
    case Failure(e) => Failure(e)
    case Success(d) =>
      match CommitsSinceLastTag(r)
      case Failure(e) => Failure(e)
      case Success(c) => Success(d + "-" + NatToString(c) + (if r.dirty then "+" else ""))
  }

  /** The dev ending on master: the commit count and the dirty mark. */
  lemma DevEndingOnMaster(r: Repo)
    requires OnMasterBranch(r) && LastTag(r).Success?
    ensures DevEnding(r) == Success("-" + NatToString(r.commitsSince) + (if r.dirty then "+" else ""))
  {
    assert "" + "-" == "-";
  }

  /** The dev ending off master: the dev number of the last tag, the commit count and the dirty mark. */
  lemma DevEndingOffMaster(r: Repo)
    requires !OnMasterBranch(r) && LastTag(r).Success?
    ensures DevEnding(r) == Success("-dev" + NatToString(DecimalValue(ParseDevTag(r.describe).value.dev))
      + "-" + NatToString(r.commitsSince) + (if r.dirty then "+" else ""))
  {
    LastTagIsDevTag(r);
  }

  /** The dev ending is found whenever the last tag is, and ends in `+` exactly when the tree is dirty. */
  lemma DevEndingDirty(r: Repo)
    ensures DevEnding(r).Success? <==> LastTag(r).Success?
    ensures DevEnding(r).Success? ==>
      var e := DevEnding(r).value; |e| > 0 && (e[|e| - 1] == '+' <==> r.dirty)
  {
    if LastTag(r).Success? {
      if OnMasterBranch(r) {
        DevEndingOnMaster(r);
      } else {
        DevEndingOffMaster(r);
      }
      var c := NatToString(r.commitsSince);
      assert IsDigit(c[|c| - 1]);
    }
  }

  /** Python's `s[:n]`: at most the first n characters. */
  function Take(s: string, n: nat): (r: string)
    ensures |r| <= n && r <= s
    ensures |s| >= n ==> |r| == n
  {
    if |s| <= n then s else s[..n]
  }

  /**
   * `getFullVersionString`: version, dev ending, then `g` and seven
   * characters of the HEAD hash. The string starts with the version number
   * and ends with `g` and the abbreviated hash.
   */
  function FullVersionString(r: Repo): (res: Result<string, VersionError>)
    ensures res.Success? ==> VersionNumber(r).Success? && VersionNumber(r).value <= res.value
    ensures res.Success? ==>
      var n, h := |res.value|, Take(r.head, 7);
      n > |h| && res.value[n - |h| - 1..] == "g" + h
  {
    match VersionNumber(r)
    case Failure(e) => Failure(e)
    case Success(version) =>
      match DevEnding(r)
      case Failure(e) => Failure(e)
      case Success(ending) => Success(version + ending + "g" + Take(r.head, 7))
  }

  /** The last character of a dev ending is a digit or `+`. */
  lemma DevEndingLast(r: Repo)
    requires DevEnding(r).Success?
    ensures var e := DevEnding(r).value; |e| > 0 && (IsDigit(e[|e| - 1]) || e[|e| - 1] == '+')
  {
    DevEndingDirty(r);
    if !r.dirty {
      var c := NatToString(r.commitsSince);
      assert IsDigit(c[|c| - 1]);
      if OnMasterBranch(r) {
        DevEndingOnMaster(r);
      } else {
        DevEndingOffMaster(r);
      }
    }
  }

  /** The full string is found exactly when the last tag is. */
  lemma FullVersionStringFound(r: Repo)
    ensures FullVersionString(r).Success? <==> LastTag(r).Success?
  {
    VersionNumberOfLastTag(r);
    DevEndingDirty(r);
  }

  /** The shape of a full version string for version v and abbreviated hash h. */
  predicate FullShape(s: string, v: Version, h: string)
  {
    ParseVersion(s) == Some(v) &&
    |h| + 2 <= |s| && s[|s| - |h|..] == h && s[|s| - |h| - 1] == 'g' &&
    (IsDigit(s[|s| - |h| - 2]) || s[|s| - |h| - 2] == '+')
  }

  /**
   * The full string starts with the last tag's version, which parses back
   * from it, and ends with `g` and the abbreviated hash, the `g` following
   * the commit count or the `+` directly, with no hyphen.
   */
  lemma FullVersionStringShape(r: Repo)
    requires FullVersionString(r).Success?
    ensures LastTag(r).Success? && ParseVersion(LastTag(r).value.name).Some?
    ensures FullShape(FullVersionString(r).value, ParseVersion(LastTag(r).value.name).value, Take(r.head, 7))
  {
    VersionNumberOfLastTag(r);
    var v := ParseVersion(LastTag(r).value.name).value;
    var e := DevEnding(r).value;
    DevEndingLast(r);
    FullStringPieces(v, e, Take(r.head, 7));
  }

  /** A version, a dev ending, `g` and a hash: the version parses back and the tail sits at the end. */
  lemma FullStringPieces(v: Version, e: string, h: string)
    requires WellFormed(v) && |e| > 0 && e[0] == '-'
    requires IsDigit(e[|e| - 1]) || e[|e| - 1] == '+'
    ensures FullShape(VersionText(v) + e + "g" + h, v, h)
  {
    var s := VersionText(v) + e + "g" + h;
    Assoc(VersionText(v) + e, "g", h);
    Assoc(VersionText(v), e, "g" + h);
    assert s == VersionText(v) + (e + ("g" + h));
    ParseVersionComplete(v, e + ("g" + h));
  }
}
