/** File naming and the GFA 1.0 output of the mode 3 assembly graph (largeDataName, writeGfa).
    The output stream is modelled as the string written to it. */
module Mode3Gfa {
  import opened Mode3Segments
  import opened Mode3Links

  /** largeDataName: an empty prefix makes the data anonymous (the empty name); otherwise the
      name is the prefix followed by the given name, which can be read back from it. */
  function LargeDataName(largeDataFileNamePrefix: string, name: string): (r: string)
    ensures r == [] <==> largeDataFileNamePrefix == []
    ensures largeDataFileNamePrefix != [] ==>
      (largeDataFileNamePrefix <= r && r[|largeDataFileNamePrefix|..] == name)
  {
    if largeDataFileNamePrefix == [] then [] else largeDataFileNamePrefix + name
  }

  // ----- Decimal numbers -----

  predicate IsDigits(s: string)
  {
    forall i :: 0 <= i < |s| ==> '0' <= s[i] <= '9'
  }

  /** The value of a string of decimal digits. */
  function DecimalValue(s: string): nat
    requires IsDigits(s)
  {
    if s == [] then 0 else 10 * DecimalValue(s[..|s| - 1]) + (s[|s| - 1] as int - '0' as int)
  }

  /** The decimal form in which an ostream writes an unsigned integer. */
  function NatToString(n: nat): (s: string)
    ensures 1 <= |s| && IsDigits(s)
    ensures s[0] == '0' ==> n == 0
  {
    if n < 10 then [('0' as int + n) as char]
    else NatToString(n / 10) + [('0' as int + n % 10) as char]
  }

  /** Reading the decimal form back gives the number written. */
  lemma {:induction false} DecimalRoundTrip(n: nat)
    ensures DecimalValue(NatToString(n)) == n
  {
    if 10 <= n {
      var s := NatToString(n);
      assert s[..|s| - 1] == NatToString(n / 10);
      DecimalRoundTrip(n / 10);
    }
  }

  // ----- Fields and lines -----

  /** Fields joined with a separator between consecutive ones. */
  function JoinWith(fields: seq<string>, separator: char): string
    requires 1 <= |fields|
  {
    if |fields| == 1 then fields[0] else fields[0] + [separator] + JoinWith(fields[1..], separator)
  }

  /** The pieces of s between separators. */
  function SplitOn(s: string, separator: char): (r: seq<string>)
    ensures 1 <= |r|
  {
    if s == [] then [[]]
    else if s[0] == separator then [[]] + SplitOn(s[1..], separator)
    else
      var rest := SplitOn(s[1..], separator);
      [[s[0]] + rest[0]] + rest[1..]
  }

  lemma {:induction false} SplitPlain(a: string, separator: char)
    requires separator !in a
    ensures SplitOn(a, separator) == [a]
  {
    if a != [] {
      SplitPlain(a[1..], separator);
      assert [a[0]] + a[1..] == a;
    }
  }

  lemma {:induction false} SplitFirst(a: string, separator: char, b: string)
    requires separator !in a
    ensures SplitOn(a + [separator] + b, separator) == [a] + SplitOn(b, separator)
  {
    if a == [] {
      assert a + [separator] + b == [separator] + b;
      assert ([separator] + b)[1..] == b;
    } else {
      var s := a + [separator] + b;
      assert s[1..] == a[1..] + [separator] + b;
      SplitFirst(a[1..], separator, b);
      assert [a[0]] + a[1..] == a;
    }
  }

  /** Splitting fields joined with a separator that none of them contains gives them back. */
  lemma {:induction false} SplitJoin(fields: seq<string>, separator: char)
    requires 1 <= |fields| && forall i :: 0 <= i < |fields| ==> separator !in fields[i]
    ensures SplitOn(JoinWith(fields, separator), separator) == fields
  {
    if |fields| == 1 {
      SplitPlain(fields[0], separator);
    } else {
      SplitJoin(fields[1..], separator);
      SplitFirst(fields[0], separator, JoinWith(fields[1..], separator));
    }
  }

  /** Lines, each followed by a newline. */
  function Terminated(lines: seq<string>): string
  {
    if lines == [] then [] else lines[0] + "\n" + Terminated(lines[1..])
  }

  lemma {:induction false} TerminatedAppend(lines: seq<string>, line: string)
    ensures Terminated(lines + [line]) == Terminated(lines) + line + "\n"
  {
    if lines != [] {
      assert (lines + [line])[1..] == lines[1..] + [line];
      TerminatedAppend(lines[1..], line);
    } else {
      assert Terminated([line][1..]) == [];
    }
  }

  /** Splitting newline-terminated lines that contain no newline gives them back, followed by the
      empty piece after the last newline. */
  lemma {:induction false} SplitTerminated(lines: seq<string>)
    requires forall i :: 0 <= i < |lines| ==> '\n' !in lines[i]
    ensures SplitOn(Terminated(lines), '\n') == lines + [[]]
  {
    if lines != [] {
      SplitTerminated(lines[1..]);
      SplitFirst(lines[0], '\n', Terminated(lines[1..]));
      assert lines[0] + "\n" + Terminated(lines[1..]) == lines[0] + ['\n'] + Terminated(lines[1..]);
      assert [lines[0]] + (lines[1..] + [[]]) == lines + [[]];
    }
  }

  // ----- GFA records -----

  const HEADER_FIELDS: seq<string> := ["H", "VN:Z:1.0"]

  /** The fields of the S record of a segment: its id, no sequence, and its length in marker
      graph edges. */
  function SegmentFields(segmentId: nat, pathLength: nat): seq<string>
  {
    ["S", NatToString(segmentId), "*", "LN:i:" + NatToString(pathLength)]
  }

  /** The fields of the L record of a link: both segments on the forward strand, no overlap. */
  function LinkFields(link: Link): seq<string>
  {
    ["L", NatToString(link.segmentId0), "+", NatToString(link.segmentId1), "+", "0M"]
  }

  /** The records of the file: the header, one S record per segment in id order, one L record
      per link in link order. */
  function GfaRecords(paths: seq<seq<MarkerGraphEdgeInfo>>, links: seq<Link>): (r: seq<string>)
    ensures |r| == 1 + |paths| + |links|
  {
    [JoinWith(HEADER_FIELDS, '\t')]
      + seq(|paths|, i requires 0 <= i < |paths| => JoinWith(SegmentFields(i, |paths[i]|), '\t'))
      + seq(|links|, j requires 0 <= j < |links| => JoinWith(LinkFields(links[j]), '\t'))
  }

  function GfaText(paths: seq<seq<MarkerGraphEdgeInfo>>, links: seq<Link>): string
  {
    Terminated(GfaRecords(paths, links))
  }

  lemma DigitsPlain(s: string)
    requires IsDigits(s)
    ensures '\t' !in s && '\n' !in s
  {
    assert forall i :: 0 <= i < |s| ==> s[i] != '\t' && s[i] != '\n';
  }

  lemma NoNewlineInJoin(fields: seq<string>)
    requires 1 <= |fields| && forall i :: 0 <= i < |fields| ==> '\n' !in fields[i]
    ensures '\n' !in JoinWith(fields, '\t')
  {
    if 1 < |fields| {
      NoNewlineInJoin(fields[1..]);
    }
  }

  lemma SegmentFieldsPlain(segmentId: nat, pathLength: nat)
    ensures forall i :: 0 <= i < 4 ==> '\t' !in SegmentFields(segmentId, pathLength)[i] && '\n' !in SegmentFields(segmentId, pathLength)[i]
  {
    DigitsPlain(NatToString(segmentId));
    DigitsPlain(NatToString(pathLength));
  }

  lemma LinkFieldsPlain(link: Link)
    ensures forall i :: 0 <= i < 6 ==> '\t' !in LinkFields(link)[i] && '\n' !in LinkFields(link)[i]
  {
    DigitsPlain(NatToString(link.segmentId0));
    DigitsPlain(NatToString(link.segmentId1));
  }

  /** The records of the file, one by one. */
  lemma HeaderRecord(paths: seq<seq<MarkerGraphEdgeInfo>>, links: seq<Link>)
    ensures GfaRecords(paths, links)[0] == JoinWith(HEADER_FIELDS, '\t')
  {
  }

  lemma SegmentRecord(paths: seq<seq<MarkerGraphEdgeInfo>>, links: seq<Link>, i: nat)
    requires i < |paths|
    ensures GfaRecords(paths, links)[1 + i] == JoinWith(SegmentFields(i, |paths[i]|), '\t')
  {
  }

  lemma LinkRecord(paths: seq<seq<MarkerGraphEdgeInfo>>, links: seq<Link>, j: nat)
    requires j < |links|
    ensures GfaRecords(paths, links)[1 + |paths| + j] == JoinWith(LinkFields(links[j]), '\t')
  {
  }

  /** The text of each record, as writeGfa writes it. */
  lemma HeaderText()
    ensures JoinWith(HEADER_FIELDS, '\t') == "H\tVN:Z:1.0"
  {
  }

  lemma SegmentText(segmentId: nat, pathLength: nat)
    ensures JoinWith(SegmentFields(segmentId, pathLength), '\t')
      == "S\t" + NatToString(segmentId) + "\t" + "*\tLN:i:" + NatToString(pathLength)
  {
    var f := SegmentFields(segmentId, pathLength);
    var x, y := NatToString(segmentId), NatToString(pathLength);
    assert f[1..][1..][1..] == ["LN:i:" + y];
    assert JoinWith(f[1..][1..], '\t') == "*" + ['\t'] + ("LN:i:" + y);
    assert JoinWith(f[1..], '\t') == x + ['\t'] + ("*" + ['\t'] + ("LN:i:" + y));
    calc {
      JoinWith(f, '\t');
      "S" + ['\t'] + (x + ['\t'] + ("*" + ['\t'] + ("LN:i:" + y)));
      { assert "S" + ['\t'] == "S\t"; assert "*" + ['\t'] + "LN:i:" == "*\tLN:i:"; }
      "S\t" + x + "\t" + "*\tLN:i:" + y;
    }
  }

  lemma LinkText(link: Link)
    ensures JoinWith(LinkFields(link), '\t')
      == "L\t" + NatToString(link.segmentId0) + "\t+\t" + NatToString(link.segmentId1) + "\t+\t0M"
  {
    var l := LinkFields(link);
    var x, y := NatToString(link.segmentId0), NatToString(link.segmentId1);
    assert l[1..][1..][1..][1..][1..] == ["0M"];
    assert JoinWith(l[1..][1..][1..][1..], '\t') == "+" + ['\t'] + "0M";
    assert JoinWith(l[1..][1..][1..], '\t') == y + ['\t'] + ("+" + ['\t'] + "0M");
    assert JoinWith(l[1..][1..], '\t') == "+" + ['\t'] + (y + ['\t'] + ("+" + ['\t'] + "0M"));
    assert JoinWith(l[1..], '\t') == x + ['\t'] + ("+" + ['\t'] + (y + ['\t'] + ("+" + ['\t'] + "0M")));
    calc {
      JoinWith(l, '\t');
      "L" + ['\t'] + (x + ['\t'] + ("+" + ['\t'] + (y + ['\t'] + ("+" + ['\t'] + "0M"))));
      { assert "L" + ['\t'] == "L\t"; assert ['\t'] + "+" + ['\t'] == "\t+\t"; assert ['\t'] + "+" + ['\t'] + "0M" == "\t+\t0M"; }
      "L\t" + x + "\t+\t" + y + "\t+\t0M";
    }
  }

  /** No record holds a newline. */
  lemma RecordsPlain(paths: seq<seq<MarkerGraphEdgeInfo>>, links: seq<Link>)
    ensures var records := GfaRecords(paths, links);
      forall r :: 0 <= r < |records| ==> '\n' !in records[r]
  {
    var records := GfaRecords(paths, links);
    forall r | 0 <= r < |records| ensures '\n' !in records[r] {
      if r == 0 {
        HeaderRecord(paths, links);
        NoNewlineInJoin(HEADER_FIELDS);
      } else if r <= |paths| {
        SegmentRecord(paths, links, r - 1);
        SegmentFieldsPlain(r - 1, |paths[r - 1]|);
        NoNewlineInJoin(SegmentFields(r - 1, |paths[r - 1]|));
      } else {
        LinkRecord(paths, links, r - 1 - |paths|);
        LinkFieldsPlain(links[r - 1 - |paths|]);
        NoNewlineInJoin(LinkFields(links[r - 1 - |paths|]));
      }
    }
  }

  /** Reading the file back: its lines are the header, then for each segment an S record whose
      tab-separated fields are the segment id and its path length in decimal, then for each link
      an L record whose fields are its two segment ids; the file ends with a newline. */
  lemma {:induction false} GfaTextParses(paths: seq<seq<MarkerGraphEdgeInfo>>, links: seq<Link>)
    ensures var lines := SplitOn(GfaText(paths, links), '\n');
      |lines| == |paths| + |links| + 2 && lines[|lines| - 1] == []
      && SplitOn(lines[0], '\t') == HEADER_FIELDS
      && (forall i :: 0 <= i < |paths| ==> SplitOn(lines[1 + i], '\t') == SegmentFields(i, |paths[i]|))
      && (forall j :: 0 <= j < |links| ==> SplitOn(lines[1 + |paths| + j], '\t') == LinkFields(links[j]))
  {
    var records := GfaRecords(paths, links);
    RecordsPlain(paths, links);
    SplitTerminated(records);
    HeaderRecord(paths, links);
    SplitJoin(HEADER_FIELDS, '\t');
    forall i | 0 <= i < |paths| ensures SplitOn(records[1 + i], '\t') == SegmentFields(i, |paths[i]|) {
      SegmentRecord(paths, links, i);
      SegmentFieldsPlain(i, |paths[i]|);
      SplitJoin(SegmentFields(i, |paths[i]|), '\t');
    }
    forall j | 0 <= j < |links| ensures SplitOn(records[1 + |paths| + j], '\t') == LinkFields(links[j]) {
      LinkRecord(paths, links, j);
      LinkFieldsPlain(links[j]);
      SplitJoin(LinkFields(links[j]), '\t');
    }
  }

  lemma TerminatedStep(lines: seq<string>, k: nat)
    requires k < |lines|
    ensures Terminated(lines[..k + 1]) == Terminated(lines[..k]) + lines[k] + "\n"
  {
    TerminatedAppend(lines[..k], lines[k]);
    assert lines[..k] + [lines[k]] == lines[..k + 1];
  }

  /** The S record of one segment, as writeGfa formats it. */
  method FormatSegment(paths: seq<seq<MarkerGraphEdgeInfo>>, links: seq<Link>, segmentId: nat)
    returns (record: string)
    requires segmentId < |paths|
    ensures record == GfaRecords(paths, links)[1 + segmentId]
  {
    record := "S\t" + NatToString(segmentId) + "\t" + "*\tLN:i:" + NatToString(|paths[segmentId]|);
    SegmentText(segmentId, |paths[segmentId]|);
    SegmentRecord(paths, links, segmentId);
  }

  /** The L record of one link, as writeGfa formats it. */
  method FormatLink(paths: seq<seq<MarkerGraphEdgeInfo>>, links: seq<Link>, linkId: nat)
    returns (record: string)
    requires linkId < |links|
    ensures record == GfaRecords(paths, links)[1 + |paths| + linkId]
  {
    var link := links[linkId];
    record := "L\t" + NatToString(link.segmentId0) + "\t+\t" + NatToString(link.segmentId1) + "\t+\t0M";
    LinkText(link);
    LinkRecord(paths, links, linkId);
  }

  /** The segment loop of writeGfa: after the header, one S record per segment. */
  method WriteSegments(paths: seq<seq<MarkerGraphEdgeInfo>>, links: seq<Link>, header: string)
    returns (gfa: string)
    requires header == Terminated(GfaRecords(paths, links)[..1])
    ensures gfa == Terminated(GfaRecords(paths, links)[..1 + |paths|])
  {
    ghost var records := GfaRecords(paths, links);
    gfa := header;
    var segmentId := 0;
    while segmentId < |paths|
      invariant segmentId <= |paths|
      invariant gfa == Terminated(records[..1 + segmentId])
    {
      var record := FormatSegment(paths, links, segmentId);
      TerminatedStep(records, 1 + segmentId);
      gfa := gfa + record + "\n";
      segmentId := segmentId + 1;
    }
  }

  /** The link loop of writeGfa: after the segments, one L record per link. */
  method WriteLinks(paths: seq<seq<MarkerGraphEdgeInfo>>, links: seq<Link>, segmentsText: string)
    returns (gfa: string)
    requires segmentsText == Terminated(GfaRecords(paths, links)[..1 + |paths|])
    ensures gfa == GfaText(paths, links)
  {
    ghost var records := GfaRecords(paths, links);
    gfa := segmentsText;
    var linkId := 0;
    while linkId < |links|
      invariant linkId <= |links|
      invariant gfa == Terminated(records[..1 + |paths| + linkId])
    {
      var record := FormatLink(paths, links, linkId);
      TerminatedStep(records, 1 + |paths| + linkId);
      gfa := gfa + record + "\n";
      linkId := linkId + 1;
    }
    assert records[..1 + |paths| + |links|] == records;
  }

  /** writeGfa: the header, the S record of each segment, then the L record of each link. */
  method WriteGfa(paths: seq<seq<MarkerGraphEdgeInfo>>, links: seq<Link>) returns (gfa: string)
    ensures gfa == GfaText(paths, links)
  {
    ghost var records := GfaRecords(paths, links);
    HeaderRecord(paths, links);
    HeaderText();
    TerminatedStep(records, 0);
    assert records[..0] == [];
    gfa := "H\tVN:Z:1.0\n";
    gfa := WriteSegments(paths, links, gfa);
    gfa := WriteLinks(paths, links, gfa);
  }
}
