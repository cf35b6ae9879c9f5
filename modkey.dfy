/**
 * Module identity: how a raw token `name` or `name@version` is split into a
 * (name, version) pair (getModNameAndVersion in main.go), how printMod formats
 * that pair back, and the fatal errors the program can stop with.
 */
module ModKey {
  import opened Wrappers

  /** The parsed identity of a raw token: the Name and Version fields of a Mod. */
  datatype ModId = ModId(name: string, version: string)

  /** Every way the program stops with log.Fatalln (or crashes). */
  datatype Fatal =
    | ModRawError(raw: string)       // a token with two or more '@'
    | SplitLineError(line: string)   // an edge line that is not exactly two fields
    | StackOverflow(root: string)    // printMod never returns: a required-by cycle

  /**
   * The message part of what the program writes to standard error before
   * exiting. log.Fatalln puts the date and time in front of it and a newline
   * after it; for a stack overflow the Go runtime prints a report whose
   * headline is this line, together with a line naming the stack limit and
   * the goroutine traces, none of which is modelled.
   */
  function Message(f: Fatal): string
  {
    match f
    case ModRawError(raw) => "modRaw error: " + raw
    case SplitLineError(_) => "error split line"
    case StackOverflow(_) => "fatal error: stack overflow"
  }

  /** The message tells the three kinds of failure apart, and names the offending token. */
  lemma MessageTells(f: Fatal, f': Fatal)
    requires Message(f) == Message(f')
    ensures f.ModRawError? <==> f'.ModRawError?
    ensures f.SplitLineError? <==> f'.SplitLineError?
    ensures f.ModRawError? ==> f.raw == f'.raw
  {
    MessageHead(f);
    MessageHead(f');
    var p := "modRaw error: ";
    if f.ModRawError? && f'.ModRawError? {
      assert Message(f)[|p|..] == f.raw && Message(f')[|p|..] == f'.raw;
    }
  }

  /** The first character of each kind of message. */
  lemma MessageHead(f: Fatal)
    ensures |Message(f)| >= 1
    ensures Message(f)[0] == match f case ModRawError(_) => 'm' case SplitLineError(_) => 'e' case StackOverflow(_) => 'f'
  {
  }

  /** Number of occurrences of `c` in `s`. */
  function Count(s: string, c: char): nat
  {
    if |s| == 0 then 0 else (if s[0] == c then 1 else 0) + Count(s[1..], c)
  }

  lemma {:induction false} CountZero(s: string, c: char)
    ensures Count(s, c) == 0 <==> c !in s
  {
    if |s| > 0 {
      CountZero(s[1..], c);
      assert s == [s[0]] + s[1..];
    }
  }

  /**
   * strings.Split with a one-character separator: the maximal runs of `s`
   * between occurrences of `sep`, so one more field than there are separators.
   */
  function Split(s: string, sep: char): (fields: seq<string>)
    ensures |fields| == Count(s, sep) + 1
    ensures forall i :: 0 <= i < |fields| ==> sep !in fields[i]
    decreases |s|
  {
    if |s| == 0 then [""]
    else if s[0] == sep then [""] + Split(s[1..], sep)
    else
      var rest := Split(s[1..], sep);
      [[s[0]] + rest[0]] + rest[1..]
  }

  /** strings.Join: the fields with `sep` between consecutive ones. */
  function Join(fields: seq<string>, sep: char): string
    requires |fields| >= 1
  {
    if |fields| == 1 then fields[0] else fields[0] + [sep] + Join(fields[1..], sep)
  }

  /** Joining the fields of a split gives back the original string. */
  lemma {:induction false} JoinSplit(s: string, sep: char)
    ensures Join(Split(s, sep), sep) == s
    decreases |s|
  {
    if |s| > 0 {
      JoinSplit(s[1..], sep);
      var rest := Split(s[1..], sep);
      if s[0] == sep {
        assert Split(s, sep) == [""] + rest;
        assert ([""] + rest)[1..] == rest;
      } else {
        var fields := Split(s, sep);
        assert fields == [[s[0]] + rest[0]] + rest[1..];
        if |rest| > 1 {
          assert fields[1..] == rest[1..];
          assert Join(rest, sep) == rest[0] + [sep] + Join(rest[1..], sep);
        }
      }
    }
  }

  lemma {:induction false} SplitNoSeparator(s: string, sep: char)
    requires sep !in s
    ensures Split(s, sep) == [s]
  {
    CountZero(s, sep);
    JoinSplit(s, sep);
  }

  lemma {:induction false} SplitAtSeparator(f: string, sep: char, t: string)
    requires sep !in f
    ensures Split(f + [sep] + t, sep) == [f] + Split(t, sep)
    decreases |f|
  {
    var s := f + [sep] + t;
    if |f| == 0 {
      assert s[0] == sep && s[1..] == t;
    } else {
      assert s[0] == f[0] && s[1..] == f[1..] + [sep] + t;
      SplitAtSeparator(f[1..], sep, t);
      assert [f[0]] + f[1..] == f;
    }
  }

  /** Splitting a join of separator-free fields gives back the fields. */
  lemma {:induction false} SplitJoin(fields: seq<string>, sep: char)
    requires |fields| >= 1
    requires forall i :: 0 <= i < |fields| ==> sep !in fields[i]
    ensures Split(Join(fields, sep), sep) == fields
  {
    if |fields| == 1 {
      SplitNoSeparator(fields[0], sep);
    } else {
      SplitJoin(fields[1..], sep);
      SplitAtSeparator(fields[0], sep, Join(fields[1..], sep));
      assert [fields[0]] + fields[1..] == fields;
    }
  }

  /**
   * getModNameAndVersion: no '@' gives (raw, ""), exactly one '@' gives the
   * text before and after it, two or more '@' is an error.
   */
  function ParseModRaw(raw: string): (r: Result<ModId, Fatal>)
    ensures r.Success? <==> Count(raw, '@') <= 1
    ensures r.Failure? ==> r.error == ModRawError(raw)
    ensures r.Success? ==> '@' !in r.value.name && '@' !in r.value.version
    ensures r.Success? && Count(raw, '@') == 0 ==> r.value == ModId(raw, "")
    ensures r.Success? && Count(raw, '@') == 1 ==> raw == r.value.name + "@" + r.value.version
  {
    var parts := Split(raw, '@');
    JoinSplit(raw, '@');
    if |parts| == 1 then
      Success(ModId(parts[0], ""))
    else if |parts| == 2 then
      assert Join(parts, '@') == parts[0] + "@" + parts[1];
      Success(ModId(parts[0], parts[1]))
    else
      Failure(ModRawError(raw))
  }

  /** The name printMod writes for a node: `name`, or `name@version` when the version is set. */
  function Format(id: ModId): string
  {
    if id.version == "" then id.name else id.name + "@" + id.version
  }

  /** A token without '@' is a bare name with an empty version. */
  lemma ParseBareName(raw: string)
    requires '@' !in raw
    ensures ParseModRaw(raw) == Success(ModId(raw, ""))
  {
    CountZero(raw, '@');
  }

  /** `name@version` with '@'-free parts parses to exactly that name and version. */
  lemma {:induction false} ParseNameAtVersion(name: string, version: string)
    requires '@' !in name && '@' !in version
    ensures ParseModRaw(name + "@" + version) == Success(ModId(name, version))
  {
    SplitJoin([name, version], '@');
    assert Join([name, version], '@') == name + "@" + version;
  }

  /** Formatting an '@'-free identity and parsing the result gives the identity back. */
  lemma {:induction false} ParseFormat(id: ModId)
    requires '@' !in id.name && '@' !in id.version
    ensures ParseModRaw(Format(id)) == Success(id)
  {
    if id.version == "" {
      ParseBareName(id.name);
    } else {
      ParseNameAtVersion(id.name, id.version);
    }
  }

  /**
   * A token that parses is printed as itself, except `name@` (one '@' and an
   * empty version), which printMod writes as `name`.
   */
  lemma {:induction false} FormatParse(raw: string)
    requires ParseModRaw(raw).Success?
    ensures var id := ParseModRaw(raw).value;
      Format(id) == raw <==> Count(raw, '@') == 0 || id.version != ""
  {
    var id := ParseModRaw(raw).value;
    if Count(raw, '@') == 1 && id.version == "" {
      CountZero(id.name, '@');
      CountZero(raw, '@');
      assert raw[|id.name|] == '@';
    }
  }

  /** Two tokens with the same parse and a non-empty version are the same token. */
  lemma ParseInjectiveOnVersioned(raw1: string, raw2: string)
    requires ParseModRaw(raw1).Success? && ParseModRaw(raw1) == ParseModRaw(raw2)
    requires ParseModRaw(raw1).value.version != ""
    ensures raw1 == raw2
  {
    assert Count(raw1, '@') == 1 && Count(raw2, '@') == 1;
  }
}
