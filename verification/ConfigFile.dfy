/** The configuration file of config.c: line by line parsing into sections whose options
    are hashed, and lookup in them. */
module ConfigFile {
  import opened Wrappers
  import opened ConfigLines

  // ----- what a lookup means

  /** The value of the first option called name. */
  function FirstOpt(opts: seq<Opt>, name: string): Option<string> {
    if |opts| == 0 then None else if opts[0].name == name then Some(opts[0].val) else FirstOpt(opts[1..], name)
  }

  /** The first option called name in any section called section, in file order; sections
      may repeat. */
  function Linear(secs: seq<Section>, section: string, name: string): Option<string> {
    if |secs| == 0 then None
    else if secs[0].name == section && FirstOpt(secs[0].opts, name).Some? then FirstOpt(secs[0].opts, name)
    else Linear(secs[1..], section, name)
  }

  /** With one fallback to the global section. */
  function Lookup(secs: seq<Section>, section: string, name: string): Option<string> {
    var found := Linear(secs, section, name);
    if found.None? && section != "global" then Linear(secs, "global", name) else found
  }

  /** The first option called name in the sections called section. */
  ghost predicate FirstAt(secs: seq<Section>, i: nat, j: nat, section: string, name: string) {
    && i < |secs| && j < |secs[i].opts| && secs[i].name == section && secs[i].opts[j].name == name
    && (forall m :: 0 <= m < j ==> secs[i].opts[m].name != name)
    && (forall h, m :: 0 <= h < i && secs[h].name == section && 0 <= m < |secs[h].opts| ==>
          secs[h].opts[m].name != name)
  }

  lemma {:induction false} FirstOptAt(opts: seq<Opt>, name: string) returns (j: nat)
    ensures j <= |opts| && forall m :: 0 <= m < j ==> opts[m].name != name
    ensures FirstOpt(opts, name) == if j < |opts| then Some(opts[j].val) else None
    ensures j < |opts| ==> opts[j].name == name
  {
    j := 0;
    if |opts| > 0 && opts[0].name != name {
      j := FirstOptAt(opts[1..], name);
      j := j + 1;
    }
  }

  /** The linear scan finds the first option, if there is one. */
  lemma {:induction false} LinearAt(secs: seq<Section>, section: string, name: string) returns (i: nat, j: nat)
    ensures Linear(secs, section, name).Some? ==>
      FirstAt(secs, i, j, section, name) && Linear(secs, section, name).value == secs[i].opts[j].val
    ensures Linear(secs, section, name).None? ==>
      forall h, m :: 0 <= h < |secs| && secs[h].name == section && 0 <= m < |secs[h].opts| ==>
        secs[h].opts[m].name != name
  {
    i, j := 0, 0;
    if |secs| > 0 {
      j := FirstOptAt(secs[0].opts, name);
      if secs[0].name != section || j == |secs[0].opts| {
        i, j := LinearAt(secs[1..], section, name);
        i := i + 1;
      }
    }
  }

  /** No section called section has an option called name. */
  ghost predicate Nowhere(secs: seq<Section>, section: string, name: string) {
    forall h, m :: 0 <= h < |secs| && secs[h].name == section && 0 <= m < |secs[h].opts| ==>
      secs[h].opts[m].name != name
  }

  /** A lookup finds the first option in the section, without one there the first one in the
      global section, and otherwise nothing. */
  lemma LookupFinds(secs: seq<Section>, section: string, name: string) returns (i: nat, j: nat)
    ensures !Nowhere(secs, section, name) ==>
      FirstAt(secs, i, j, section, name) && Lookup(secs, section, name) == Some(secs[i].opts[j].val)
    ensures Nowhere(secs, section, name) && !Nowhere(secs, "global", name) ==>
      FirstAt(secs, i, j, "global", name) && Lookup(secs, section, name) == Some(secs[i].opts[j].val)
    ensures Nowhere(secs, section, name) && Nowhere(secs, "global", name) ==> Lookup(secs, section, name) == None
  {
    i, j := LinearAt(secs, section, name);
    if Linear(secs, section, name).None? {
      i, j := LinearAt(secs, "global", name);
    }
  }

  // ----- hashed sections

  /** djb hash of a string of bytes, modulo the number of buckets */
  function Djb(s: string): nat
    decreases |s|
  {
    if |s| == 0 then 5381 else (Djb(s[..|s| - 1]) * 33 + s[|s| - 1] as int % 256) % 0x1_0000_0000
  }

  /** The hash of two characters, before the product wraps. */
  lemma DjbStart(a: char, b: char)
    ensures Djb([a]) == 177573 + a as int % 256
    ensures Djb([a, b]) == 5859909 + 33 * (a as int % 256) + b as int % 256
  {
    assert [a, b][..1] == [a] && [a][..0] == "";
  }

  method Hash(s: string) returns (h: nat)
    ensures h == Djb(s) % 11 < 11
  {
    h := 5381;
    for i := 0 to |s|
      invariant h == Djb(s[..i])
    {
      assert s[..i + 1][..i] == s[..i];
      h := (h * 32 + h + s[i] as int % 256) % 0x1_0000_0000;
    }
    assert s[..|s|] == s;
    h := h % 11;
  }

  /** struct header: 11 buckets of options */
  datatype Header = Header(name: string, buckets: seq<seq<Opt>>)

  /** The options of a section that belong into bucket b, in file order. */
  function InBucket(opts: seq<Opt>, b: nat): seq<Opt> {
    if |opts| == 0 then []
    else if Djb(opts[0].name) % 11 == b then [opts[0]] + InBucket(opts[1..], b)
    else InBucket(opts[1..], b)
  }

  ghost predicate Hashed(h: Header, s: Section) {
    h.name == s.name && |h.buckets| == 11 && forall b :: 0 <= b < 11 ==> h.buckets[b] == InBucket(s.opts, b)
  }

  /** Looking only into the right bucket finds the same option. */
  lemma {:induction false} BucketLookup(opts: seq<Opt>, name: string)
    ensures FirstOpt(InBucket(opts, Djb(name) % 11), name) == FirstOpt(opts, name)
  {
    if |opts| != 0 {
      BucketLookup(opts[1..], name);
      var b := InBucket(opts[1..], Djb(name) % 11);
      assert ([opts[0]] + b)[1..] == b;
    }
  }

  lemma {:induction false} BucketAppend(opts: seq<Opt>, o: Opt, b: nat)
    ensures InBucket(opts + [o], b) == InBucket(opts, b) + if Djb(o.name) % 11 == b then [o] else []
  {
    if |opts| == 0 {
      assert opts + [o] == [o] && [o][1..] == [];
    } else {
      assert (opts + [o])[1..] == opts[1..] + [o];
      BucketAppend(opts[1..], o, b);
    }
  }

  // ----- lines

  /** strstrip: two scans, the second of which the source skips for one character. */
  method StrStrip(s: string) returns (r: string)
    ensures r == Strip(s)
  {
    var i := 0;
    while i < |s| && IsSpace(s[i])
      invariant 0 <= i <= |s| && StripLeft(s[i..]) == StripLeft(s)
    {
      assert s[i..][1..] == s[i + 1..];
      i := i + 1;
    }
    r := s[i..];
    if |r| <= 1 {
      return;
    }
    var p := |r|;
    assert r[..p] == r;
    while p > 0 && IsSpace(r[p - 1])
      invariant 0 <= p <= |r| && StripRight(r[..p]) == StripRight(r)
    {
      assert r[..p][..p - 1] == r[..p - 1];
      p := p - 1;
    }
    r := r[..p];
  }

  function Parsed(lines: seq<string>): Option<seq<Section>>
    decreases |lines|
  {
    if |lines| == 0 then Some([])
    else
      match Parsed(lines[..|lines| - 1])
      case None => None
      case Some(secs) => AddLine(secs, Classify(lines[|lines| - 1]))
  }

  ghost predicate AllGood(lines: seq<string>) {
    forall k :: 0 <= k < |lines| ==> !BadText(lines[k])
  }

  lemma BadMeans(line: string)
    ensures BadText(line) <==> Classify(line) == BadLine
  {
    LineMeans(line);
  }

  lemma AllGoodMore(lines: seq<string>, line: string)
    ensures AllGood(lines + [line]) <==> AllGood(lines) && !BadText(line)
  {
    var all := lines + [line];
    assert forall k :: 0 <= k < |lines| ==> all[k] == lines[k];
    if AllGood(all) {
      assert !BadText(all[|lines|]);
      assert forall k :: 0 <= k < |lines| ==> !BadText(all[k]);
    }
  }

  /** Reading fails exactly if some line is bad. */
  lemma {:induction false} ParsedGood(lines: seq<string>)
    ensures Parsed(lines).Some? <==> AllGood(lines)
    decreases |lines|
  {
    if |lines| > 0 {
      var (front, line) := (lines[..|lines| - 1], lines[|lines| - 1]);
      ParsedGood(front);
      BadMeans(line);
      AllGoodMore(front, line);
      assert lines == front + [line];
    }
  }

  /** The sections read are those that the lines describe. */
  lemma {:induction false} ParsedSays(lines: seq<string>)
    requires Parsed(lines).Some?
    ensures FileSays(lines, Parsed(lines).value)
    decreases |lines|
  {
    if |lines| > 0 {
      var (front, line) := (lines[..|lines| - 1], lines[|lines| - 1]);
      ParsedSays(front);
      LineSaysAdded(line, Parsed(front).value, Parsed(lines).value);
      assert lines == front + [line];
      OneMoreLine(front, line, Parsed(front).value, Parsed(lines).value);
    }
  }

  class Database {
    var hlist: seq<Header>
    ghost var secs: seq<Section>

    constructor ()
      ensures Valid() && secs == []
    {
      hlist, secs := [], [];
    }

    ghost predicate Valid()
      reads this
    {
      |hlist| == |secs| && forall i :: 0 <= i < |secs| ==> Hashed(hlist[i], secs[i])
    }

    /** new_header */
    method NewHeader(name: string)
      requires Valid()
      modifies this
      ensures Valid() && secs == old(secs) + [Section(name, [])]
    {
      hlist := hlist + [Header(name, seq(11, i => []))];
      secs := secs + [Section(name, [])];
    }

    /** The option branch of parse_config_file: append to the tail of the bucket. */
    method AddOption(name: string, val: string)
      requires Valid() && |secs| > 0
      modifies this
      ensures Valid()
      ensures var last := old(secs)[|old(secs)| - 1];
        secs == old(secs)[..|old(secs)| - 1] + [last.(opts := last.opts + [Opt(name, val)])]
    {
      var o := Opt(name, val);
      var h := Hash(name);
      var n := |hlist| - 1;
      var hdr := hlist[n];
      ghost var last := secs[n];
      forall b | 0 <= b < 11
        ensures InBucket(last.opts + [o], b) == if b == h then hdr.buckets[b] + [o] else hdr.buckets[b]
      {
        BucketAppend(last.opts, o, b);
      }
      hlist := hlist[n := hdr.(buckets := hdr.buckets[h := hdr.buckets[h] + [o]])];
      secs := secs[..n] + [last.(opts := last.opts + [o])];
      assert Hashed(hlist[n], secs[n]);
    }

    /** The line loop of parse_config_file; ok is false where the source exits. */
    method ParseConfigFile(lines: seq<string>) returns (ok: bool)
      requires Valid() && secs == []
      modifies this
      ensures ok <==> Parsed(lines).Some?
      ensures ok ==> Valid() && secs == Parsed(lines).value && FileSays(lines, secs)
      ensures ok <==> AllGood(lines)
    {
      for k := 0 to |lines|
        invariant Valid() && Parsed(lines[..k]) == Some(secs)
      {
        assert lines[..k + 1][..k] == lines[..k];
        match Classify(lines[k]) {
          case Blank =>
          case HeaderLine(name) => NewHeader(name);
          case OptionLine(name, val) =>
            if |hlist| == 0 {
              NewHeader("global");
            }
            AddOption(name, val);
          case BadLine =>
            ParsedFails(lines, k + 1);
            ParsedGood(lines);
            return false;
        }
      }
      assert lines[..|lines|] == lines;
      ParsedGood(lines);
      ParsedSays(lines);
      return true;
    }

    /** config_string */
    method ConfigString(header: string, name: string) returns (r: Option<string>)
      requires Valid()
      ensures r == Lookup(secs, header, name)
      decreases header != "global"
    {
      var h := Hash(name);
      var i := 0;
      while i < |hlist|
        invariant 0 <= i <= |hlist| && Linear(secs[i..], header, name) == Linear(secs, header, name)
      {
        assert Hashed(hlist[i], secs[i]) && secs[i..][1..] == secs[i + 1..];
        if hlist[i].name == header {
          BucketLookup(secs[i].opts, name);
          var o := hlist[i].buckets[h];
          ghost var all := o;
          while |o| > 0
            invariant FirstOpt(o, name) == FirstOpt(all, name)
          {
            if o[0].name == name {
              return Some(o[0].val);
            }
            o := o[1..];
          }
        }
        i := i + 1;
      }
      if header != "global" {
        r := ConfigString("global", name);
      } else {
        r := None;
      }
    }
  }

  lemma {:induction false} ParsedFails(lines: seq<string>, k: nat)
    requires k <= |lines| && Parsed(lines[..k]).None?
    ensures Parsed(lines).None?
    decreases |lines| - k
  {
    if k < |lines| {
      assert lines[..k + 1][..k] == lines[..k];
      ParsedFails(lines, k + 1);
    } else {
      assert lines[..k] == lines;
    }
  }
}
