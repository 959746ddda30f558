/**
 * The command-line rules of hash.py: `validate_and_process_args`
 * (hash.py:331-383), the hash list `main` is then run with (hash.py:611),
 * and the `--compare` check of `main` (hash.py:580-587).
 *
 * Parsing itself is not modelled: an `Arguments` value is what argparse
 * hands over, with `None` for an option that was not given. Whether the
 * `--file` path names a regular file (`os.path.isfile`) is a parameter.
 */
module Args {
  import opened Wrappers
  import Hex
  import HashLib
  import HashCheck

  /** The parsed options `validate_and_process_args` and `main` read. */
  datatype Arguments = Arguments(
    file: Option<string>,
    hash: string,
    length: int,
    all: bool,
    available: bool,
    blocksize: int,
    compare: Option<string>)

  /** Why validation stops the program with exit status 1. */
  datatype Rejection = BadLength | BadBlocksize | FileMissing | NoFile | BadHash | CompareWithAll

  /**
   * The three ways validation ends: the program goes on with a hash list,
   * the `--available` listing is written and the program exits with 0, or
   * an error is written and it exits with 1.
   */
  datatype Validation = Proceed(hashList: seq<string>) | ShowAvailable | Reject(reason: Rejection)

  /**
   * `hash_list` of hash.py:50: `sorted(hashlib.algorithms_guaranteed)`, the
   * algorithms every Python build provides, in code-point order.
   */
  const HashList: seq<string> := [
    "blake2b", "blake2s", "md5", "sha1", "sha224", "sha256", "sha384",
    "sha3_224", "sha3_256", "sha3_384", "sha3_512", "sha512", "shake_128", "shake_256"]

  /** Python truthiness of an optional string option: given and not empty. */
  predicate Truthy(s: Option<string>) {
    s.Some? && s.value != ""
  }

  /** `str.lower()` on one character, for the ASCII letters. */
  function LowerChar(c: char): (r: char)
    ensures 'A' <= c <= 'Z' ==> 'a' <= r <= 'z' && r as int - c as int == 32
    ensures !('A' <= c <= 'Z') ==> r == c
  {
    if 'A' <= c <= 'Z' then (c as int + 32) as char else c
  }

  /** `str.lower()`, for the ASCII letters. */
  function Lower(s: string): (r: string)
    ensures |r| == |s|
    ensures forall i :: 0 <= i < |s| ==> r[i] == LowerChar(s[i])
  {
    if s == [] then [] else [LowerChar(s[0])] + Lower(s[1..])
  }

  /** Lowercasing twice is lowercasing once. */
  lemma LowerIdempotent(s: string)
    ensures Lower(Lower(s)) == Lower(s)
  {
    assert forall i :: 0 <= i < |s| ==> LowerChar(LowerChar(s[i])) == LowerChar(s[i]);
  }

  /** A string without ASCII capitals is its own lowercase. */
  lemma LowerOfLowercase(s: string)
    requires forall i :: 0 <= i < |s| ==> !('A' <= s[i] <= 'Z')
    ensures Lower(s) == s
  {
  }

  /** Every name of `hash_list` is already lowercase. */
  lemma HashListIsLowercase()
    ensures forall n :: n in HashList ==> Lower(n) == n
  {
    forall n | n in HashList
      ensures Lower(n) == n
    {
      LowerOfLowercase(n);
    }
  }

  /**
   * `validate_and_process_args(hash_list)`: the checks in the order the
   * source makes them. `isFile` is `os.path.isfile(args.file)`.
   */
  function Validate(args: Arguments, hashList: seq<string>, isFile: bool): (v: Validation)
    // hash.py:334-337: the length range is checked first
    ensures v == Reject(BadLength) <==> !(1 <= args.length <= 128)
    // hash.py:338-341: then the block size range
    ensures v == Reject(BadBlocksize) <==> 1 <= args.length <= 128 && !(1 <= args.blocksize <= 1000000)
    // hash.py:344-358: --available lists and exits whatever else was given
    ensures v == ShowAvailable <==> 1 <= args.length <= 128 && 1 <= args.blocksize <= 1000000 && args.available
    // hash.py:361-367: a file must be named and must exist
    ensures v == Reject(NoFile) <==>
      1 <= args.length <= 128 && 1 <= args.blocksize <= 1000000 && !args.available && !Truthy(args.file)
    ensures v == Reject(FileMissing) <==>
      1 <= args.length <= 128 && 1 <= args.blocksize <= 1000000 && !args.available && Truthy(args.file) && !isFile
    // hash.py:370-376: without --all the lowercased name must be listed
    ensures v == Reject(BadHash) <==>
      1 <= args.length <= 128 && 1 <= args.blocksize <= 1000000 && !args.available && Truthy(args.file) && isFile
      && !args.all && Lower(args.hash) !in hashList
    // hash.py:379-381: --compare and --all exclude each other
    ensures v == Reject(CompareWithAll) <==>
      1 <= args.length <= 128 && 1 <= args.blocksize <= 1000000 && !args.available && Truthy(args.file) && isFile
      && args.all && Truthy(args.compare)
    // hash.py:383: arguments passing every check proceed, with the whole list or the one lowercased name
    ensures v.Proceed? <==>
      1 <= args.length <= 128 && 1 <= args.blocksize <= 1000000 && !args.available && Truthy(args.file) && isFile
      && (args.all || Lower(args.hash) in hashList) && !(args.all && Truthy(args.compare))
    ensures v.Proceed? ==> v.hashList == (if args.all then hashList else [Lower(args.hash)])
  {
    if !(1 <= args.length <= 128) then Reject(BadLength)
    else if !(1 <= args.blocksize <= 1000000) then Reject(BadBlocksize)
    else if args.available then ShowAvailable
    else if !Truthy(args.file) then Reject(NoFile)
    else if !isFile then Reject(FileMissing)
    else if !args.all && Lower(args.hash) !in hashList then Reject(BadHash)
    else if Truthy(args.compare) && args.all then Reject(CompareWithAll)
    else Proceed(if args.all then hashList else [Lower(args.hash)])
  }

  /** The exit status validation leaves the program with, when it stops it. */
  function ExitStatus(v: Validation): (r: Option<nat>)
    ensures r.None? <==> v.Proceed?
    ensures v == ShowAvailable ==> r == Some(0)
    ensures v.Reject? ==> r == Some(1)
  {
    match v
    case Proceed(_) => None
    case ShowAvailable => Some(0)
    case Reject(_) => Some(1)
  }

  /**
   * The exit status in terms of the arguments: 0 exactly when the ranges hold
   * and `--available` is given, 1 exactly when a range, the file, the hash name
   * or the `--compare`/`--all` check fails, and no exit otherwise.
   */
  lemma ExitStatusOfValidate(args: Arguments, hashList: seq<string>, isFile: bool)
    ensures var inRange := 1 <= args.length <= 128 && 1 <= args.blocksize <= 1000000;
      && (ExitStatus(Validate(args, hashList, isFile)) == Some(0) <==> inRange && args.available)
      && (ExitStatus(Validate(args, hashList, isFile)) == Some(1) <==>
            !inRange
            || (!args.available
                && (!Truthy(args.file) || !isFile
                    || (!args.all && Lower(args.hash) !in hashList)
                    || (args.all && Truthy(args.compare)))))
      && (ExitStatus(Validate(args, hashList, isFile)).None? <==>
            inRange && !args.available && Truthy(args.file) && isFile
            && (args.all || Lower(args.hash) in hashList) && !(args.all && Truthy(args.compare)))
  {
  }

  /**
   * The validated list is never empty when `hash_list` is not, every name in it
   * is one `hash_list` lists, and each is in lowercase.
   */
  lemma ValidatedNamesListed(args: Arguments, isFile: bool)
    requires Validate(args, HashList, isFile).Proceed?
    ensures var l := Validate(args, HashList, isFile).hashList;
      && l != []
      && (forall n :: n in l ==> n in HashList && Lower(n) == n)
      && (!args.all ==> l == [Lower(args.hash)])
  {
    HashListIsLowercase();
  }

  /**
   * hash.py:611 as written: `main` runs with `[args.hash]` as given, not with
   * the lowercased list validation produced (whose result hash.py:608 drops).
   */
  function MainHashListAsWritten(args: Arguments, hashList: seq<string>): seq<string> {
    if args.all then hashList else [args.hash]
  }

  /** The list `main` evidently means to run with: the one validation produced. */
  function MainHashList(v: Validation): seq<string>
    requires v.Proceed?
  {
    v.hashList
  }

  /**
   * A library that provides exactly the listed names: every validated list is
   * available to it, so `hash_check` on the corrected list never raises
   * AttributeError.
   */
  lemma CorrectedListAvailable(lib: HashLib.Library, args: Arguments, isFile: bool)
    requires forall n :: n in HashList ==> n in lib.names
    requires Validate(args, HashList, isFile).Proceed?
    ensures HashCheck.FirstUnavailable(lib, MainHashList(Validate(args, HashList, isFile))).None?
  {
    ValidatedNamesListed(args, isFile);
  }

  /**
   * `--hash SHA256` passes validation, which lowercases it, but `main` runs
   * `hash_check(["SHA256"])`, and `getattr(hashlib, "SHA256")` raises
   * AttributeError on a library whose constructors are the listed names.
   */
  lemma UppercaseHashRaises(lib: HashLib.Library, file: string)
    requires forall n :: n in HashList ==> n in lib.names
    requires "SHA256" !in lib.names
    requires file != ""
    ensures var args := Arguments(Some(file), "SHA256", 32, false, false, 16, None);
      && Validate(args, HashList, true) == Proceed(["sha256"])
      && MainHashListAsWritten(args, HashList) == ["SHA256"]
      && HashCheck.FirstUnavailable(lib, MainHashListAsWritten(args, HashList)) == Some("SHA256")
      && HashCheck.FirstUnavailable(lib, MainHashList(Validate(args, HashList, true))).None?
  {
    var args := Arguments(Some(file), "SHA256", 32, false, false, 16, None);
    assert Lower("SHA256") == "sha256";
    assert "SHA256"[0] == 'S';
    assert "SHA256" !in HashList;
  }

  /**
   * The `--compare` check of hash.py:580-587: no comparison unless the option
   * is truthy; otherwise the hex of the first listed algorithm is compared
   * with the given text, exactly and case-sensitively.
   */
  function Compare(compare: Option<string>, hashHex: map<string, string>, hList: seq<string>): (r: Option<bool>)
    requires hList != [] && hList[0] in hashHex
    ensures r.None? <==> !Truthy(compare)
    ensures r.Some? ==> (r.value <==> hashHex[hList[0]] == compare.value)
  {
    if Truthy(compare) then Some(hashHex[hList[0]] == compare.value) else None
  }

  /**
   * Digests are written in lowercase hex, so a compare value with a character
   * that is no lowercase hex digit (an uppercase `A`-`F`, say) never matches a
   * finalised digest.
   */
  lemma UppercaseCompareNeverMatches(lib: HashLib.Library, hashHex: map<string, string>, hList: seq<string>,
                                     absorbed: seq<bv8>, length: nat, compare: string, i: nat)
    requires hList != [] && hList[0] in hashHex
    requires hashHex[hList[0]] == HashLib.Finalise(lib, hList[0], absorbed, length)
    requires i < |compare| && !Hex.IsHexDigit(compare[i])
    ensures Compare(Some(compare), hashHex, hList) == Some(false)
  {
  }

  /** The comparison matches exactly when the text is the digest hash_check produced. */
  lemma CompareMatchesDigest(lib: HashLib.Library, hashHex: map<string, string>, hList: seq<string>,
                             absorbed: seq<bv8>, length: nat, compare: string)
    requires hList != [] && hList[0] in hashHex
    requires hashHex[hList[0]] == HashLib.Finalise(lib, hList[0], absorbed, length)
    requires compare != ""
    ensures Compare(Some(compare), hashHex, hList) == Some(true) <==>
      compare == HashLib.Finalise(lib, hList[0], absorbed, length)
  {
  }
}
