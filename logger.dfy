/**
 * The console logger's decision logic: the mode table and its name lookup, the filter that
 * decides whether a message is emitted, the node lists, and the vector formatter.
 */
module Logger {
  import opened Wrappers

  /** `PrintMode`, in declaration order (the filter compares modes by this order). */
  datatype PrintMode = Log | Info | Debug | Warning | Error | Silent

  function Level(m: PrintMode): nat
  {
    match m
    case Log => 0
    case Info => 1
    case Debug => 2
    case Warning => 3
    case Error => 4
    case Silent => 5
  }

  /** The name `string_to_mode` accepts for a mode; `Silent` has none. */
  function Name(m: PrintMode): string
    requires m != Silent
  {
    match m
    case Log => "log"
    case Info => "info"
    case Debug => "debug"
    case Warning => "warning"
    case Error => "error"
  }

  /** `PRINT_PREFIX`: `Silent` has no entry. */
  function Prefix(m: PrintMode): Option<string>
  {
    match m
    case Log => Some("[LOGG]")
    case Info => Some("[INFO]")
    case Warning => Some("[WARN]")
    case Error => Some("[EROR]")
    case Debug => Some("[DBUG]")
    case Silent => None
  }

  /** `::tolower` in the C locale: only `A`..`Z` change. */
  function LowerChar(c: char): char
  {
    if 'A' <= c <= 'Z' then (c as int + 32) as char else c
  }

  function UpperChar(c: char): char
  {
    if 'a' <= c <= 'z' then (c as int - 32) as char else c
  }

  function ToLower(s: string): string
  {
    seq(|s|, i requires 0 <= i < |s| => LowerChar(s[i]))
  }

  function ToUpper(s: string): string
  {
    seq(|s|, i requires 0 <= i < |s| => UpperChar(s[i]))
  }

  predicate IsLowerWord(s: string)
  {
    forall i :: 0 <= i < |s| ==> 'a' <= s[i] <= 'z'
  }

  /** `string_to_mode`: case-insensitive lookup of the five names; anything else is `Silent`. */
  function StringToMode(s: string): (m: PrintMode)
    ensures m != Silent ==> Name(m) == ToLower(s)
    ensures m == Silent <==> forall k: PrintMode :: k != Silent ==> Name(k) != ToLower(s)
  {
    var lower := ToLower(s);
    if lower == "log" then Log
    else if lower == "info" then Info
    else if lower == "debug" then Debug
    else if lower == "warning" then Warning
    else if lower == "error" then Error
    else Silent
  }

  /** Lower-casing an upper-cased lower-case word gives the word back. */
  lemma LowerOfUpper(s: string)
    requires IsLowerWord(s)
    ensures ToLower(ToUpper(s)) == s
  {
    assert forall i :: 0 <= i < |s| ==> ToLower(ToUpper(s))[i] == s[i];
  }

  /** Lower-casing leaves a lower-case word alone. */
  lemma LowerOfLowerWord(s: string)
    requires IsLowerWord(s)
    ensures ToLower(s) == s
  {
    assert forall i :: 0 <= i < |s| ==> ToLower(s)[i] == s[i];
  }

  /** Every mode with a name is found again from its name, in lower or in upper case. */
  lemma StringToModeRoundTrip(m: PrintMode)
    requires m != Silent
    ensures StringToMode(Name(m)) == m
    ensures StringToMode(ToUpper(Name(m))) == m
  {
    assert IsLowerWord(Name(m));
    LowerOfUpper(Name(m));
    LowerOfLowerWord(Name(m));
  }

  /** A near miss such as "warn" is not a name: it maps to `Silent`. */
  lemma UnknownNameIsSilent()
    ensures StringToMode("warn") == Silent
    ensures StringToMode("") == Silent
  {
    LowerOfLowerWord("warn");
  }

  /** The three conditions of `print`: at least the minimum mode, whitelisted or no whitelist,
      not blacklisted. */
  predicate Emits(mode: PrintMode, minMode: PrintMode, whitelist: set<string>, blacklist: set<string>, node: string)
  {
    && Level(mode) >= Level(minMode)
    && (whitelist == {} || node in whitelist)
    && node !in blacklist
  }

  /** The blacklist wins over the whitelist and over every mode. */
  lemma BlacklistWins(mode: PrintMode, minMode: PrintMode, whitelist: set<string>, blacklist: set<string>, node: string)
    requires node in blacklist
    ensures !Emits(mode, minMode, whitelist, blacklist, node)
  {
  }

  /** With no whitelist and no blacklist entry, only the mode decides. */
  lemma EmptyWhitelistAdmitsAll(mode: PrintMode, minMode: PrintMode, blacklist: set<string>, node: string)
    requires node !in blacklist
    ensures Emits(mode, minMode, {}, blacklist, node) <==> Level(mode) >= Level(minMode)
  {
  }

  /** With a whitelist, a node outside it is never emitted. */
  lemma WhitelistRestricts(mode: PrintMode, minMode: PrintMode, whitelist: set<string>, blacklist: set<string>, node: string)
    requires whitelist != {} && node !in whitelist
    ensures !Emits(mode, minMode, whitelist, blacklist, node)
  {
  }

  /** What a call of `print` amounts to: nothing, a line under the mode's prefix, or the
      `std::out_of_range` of a prefix lookup that fails. */
  datatype PrintOutcome = Suppressed | Printed(prefix: string) | OutOfRange

  /** `print` as written: a message that passes the filter looks its prefix up unconditionally. */
  function PrintAsWritten(mode: PrintMode, minMode: PrintMode, whitelist: set<string>, blacklist: set<string>, node: string): (r: PrintOutcome)
    ensures r == OutOfRange <==> mode == Silent && Emits(mode, minMode, whitelist, blacklist, node)
    ensures r.Printed? ==> Prefix(mode) == Some(r.prefix)
  {
    if !Emits(mode, minMode, whitelist, blacklist, node) then Suppressed
    else match Prefix(mode)
      case None => OutOfRange
      case Some(p) => Printed(p)
  }

  /** An unknown mode name passes the default filter as `Silent` and then fails the prefix lookup. */
  lemma UnknownModeThrows(node: string)
    ensures Emits(StringToMode("warn"), Log, {}, {}, node)
    ensures PrintAsWritten(StringToMode("warn"), Log, {}, {}, node) == OutOfRange
  {
    UnknownNameIsSilent();
  }

  /** `print` as intended: `Silent` is never printed. */
  function Print(mode: PrintMode, minMode: PrintMode, whitelist: set<string>, blacklist: set<string>, node: string): (r: PrintOutcome)
    ensures r != OutOfRange
    ensures r.Printed? ==> mode != Silent
  {
    if mode == Silent then Suppressed else PrintAsWritten(mode, minMode, whitelist, blacklist, node)
  }

  /** The intended `print` never fails, prints exactly what passes the filter with a named mode,
      and agrees with the code as written on every named mode. */
  lemma PrintNeverThrows(mode: PrintMode, minMode: PrintMode, whitelist: set<string>, blacklist: set<string>, node: string)
    ensures Print(mode, minMode, whitelist, blacklist, node) != OutOfRange
    ensures Print(mode, minMode, whitelist, blacklist, node).Printed? <==>
      mode != Silent && Emits(mode, minMode, whitelist, blacklist, node)
    ensures Print(mode, minMode, whitelist, blacklist, node).Printed? ==>
      Prefix(mode) == Some(Print(mode, minMode, whitelist, blacklist, node).prefix)
    ensures mode != Silent ==>
      Print(mode, minMode, whitelist, blacklist, node) == PrintAsWritten(mode, minMode, whitelist, blacklist, node)
  {
  }

  /** The logger's global state: the minimum mode and the node lists. */
  class LoggerConfig {
    var minMode: PrintMode
    var whitelist: set<string>
    var blacklist: set<string>

    constructor ()
      ensures minMode == Log && whitelist == {} && blacklist == {}
    {
      minMode, whitelist, blacklist := Log, {}, {};
    }

    predicate Admits(mode: PrintMode, node: string)
      reads this
    {
      Emits(mode, minMode, whitelist, blacklist, node)
    }

    /** `add_whitenode`. */
    method AddWhitenode(node: string)
      modifies this`whitelist
      ensures whitelist == old(whitelist) + {node}
      ensures node !in blacklist ==> forall m :: Level(m) >= Level(minMode) ==> Admits(m, node)
    {
      whitelist := whitelist + {node};
    }

    /** `add_blacknode`: from now on no message of the node is emitted. */
    method AddBlacknode(node: string)
      modifies this`blacklist
      ensures blacklist == old(blacklist) + {node}
      ensures forall m :: !Admits(m, node)
    {
      blacklist := blacklist + {node};
    }
  }

  /** The elements' texts separated by ", ", built from the back. */
  function Joined<T>(xs: seq<T>, show: T -> string): string
    decreases |xs|
  {
    if |xs| == 0 then ""
    else if |xs| == 1 then show(xs[0])
    else Joined(xs[..|xs| - 1], show) + ", " + show(xs[|xs| - 1])
  }

  /** The same text, built from the front. */
  function JoinedFront<T>(xs: seq<T>, show: T -> string): string
    decreases |xs|
  {
    if |xs| == 0 then ""
    else if |xs| == 1 then show(xs[0])
    else show(xs[0]) + ", " + JoinedFront(xs[1..], show)
  }

  /** Both readings of "separated by ', '" agree. */
  lemma {:induction false} JoinedAgrees<T>(xs: seq<T>, show: T -> string)
    ensures Joined(xs, show) == JoinedFront(xs, show)
    decreases |xs|
  {
    if |xs| > 2 {
      var mid := xs[1..|xs| - 1];
      JoinedAgrees(xs[..|xs| - 1], show);
      JoinedAgrees(xs[1..], show);
      JoinedAgrees(mid, show);
      assert xs[..|xs| - 1][1..] == mid;
      assert xs[1..][..|xs[1..]| - 1] == mid;
      assert xs[1..][|xs[1..]| - 1] == xs[|xs| - 1];
      if |mid| == 1 {
        assert Joined(xs[..|xs| - 1], show) == show(xs[0]) + ", " + show(mid[0]);
      } else {
        JoinedAgrees(xs[..|xs| - 1][..|xs| - 2], show);
      }
    }
  }

  /** `vec_to_str`: "[", the elements separated by ", ", then "]". */
  method VecToStr<T>(vec: seq<T>, show: T -> string) returns (s: string)
    ensures s == "[" + Joined(vec, show) + "]"
    ensures vec == [] ==> s == "[]"
    ensures |vec| == 1 ==> s == "[" + show(vec[0]) + "]"
  {
    s := "[";
    var i := 0;
    while i < |vec|
      invariant 0 <= i <= |vec|
      invariant s == "[" + Joined(vec[..i], show) + (if 0 < i < |vec| then ", " else "")
    {
      assert vec[..i + 1][..i] == vec[..i];
      s := s + show(vec[i]);
      if i != |vec| - 1 {
        s := s + ", ";
      }
      i := i + 1;
    }
    assert vec[..|vec|] == vec;
    s := s + "]";
  }
}
