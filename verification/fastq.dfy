/** The text of one FASTQ record as `append_fastq` (bam_slice/bam_slice.py)
    writes it, and a parser that reads such a record back. */
module Fastq {

  import opened Wrappers

  /** A phred quality score as pysam stores it: one unsigned byte. */
  type byte = x: int | 0 <= x < 256

  predicate NoNewline(s: string)
  {
    forall i :: 0 <= i < |s| ==> s[i] != '\n'
  }

  /** `chr(q + 33)`: the printable character encoding one quality score. */
  function QualityChar(q: byte): (c: char)
    ensures c as int == q as int + 33
    ensures c != '\n'
  {
    (q as int + 33) as char
  }

  function QualityString(quality: seq<byte>): (r: string)
    ensures |r| == |quality|
    ensures forall i :: 0 <= i < |r| ==> r[i] as int == quality[i] as int + 33
    ensures NoNewline(r)
  {
    seq(|quality|, i requires 0 <= i < |quality| => QualityChar(quality[i]))
  }

  /** The four-line record `@header`, sequence, `+`, qualities, each line ended by a newline. */
  function FastqRecord(header: string, sequence: string, quality: seq<byte>): string
  {
    "@" + header + "\n" + sequence + "\n+\n" + QualityString(quality) + "\n"
  }

  /** Splits off the first line of `text` (without its newline), or `None` when
      `text` holds no newline at all. */
  function SplitLine(text: string): (r: Option<(string, string)>)
    ensures r.Some? ==> NoNewline(r.value.0) && text == r.value.0 + "\n" + r.value.1
    ensures r.None? ==> NoNewline(text)
  {
    if |text| == 0 then None
    else if text[0] == '\n' then Some(([], text[1..]))
    else
      match SplitLine(text[1..])
      case None => None
      case Some((line, rest)) => Some(([text[0]] + line, rest))
  }

  /** Reads a quality line back into scores; `None` if a character is not `chr(q + 33)` of a byte `q`. */
  function DecodeQuality(line: string): (r: Option<seq<byte>>)
    ensures r.Some? ==> QualityString(r.value) == line
  {
    if forall i :: 0 <= i < |line| ==> 33 <= line[i] as int < 289 then
      var q := seq(|line|, i requires 0 <= i < |line| => (line[i] as int - 33) as byte);
      assert forall i :: 0 <= i < |line| ==> QualityString(q)[i] == line[i];
      Some(q)
    else None
  }

  /** Parses exactly one record: four lines, the first starting with `@`, the third `+`. */
  function ParseRecord(text: string): Option<(string, string, seq<byte>)>
  {
    match SplitLine(text)
    case None => None
    case Some((first, t1)) =>
      if |first| == 0 || first[0] != '@' then None
      else
        match SplitLine(t1)
        case None => None
        case Some((second, t2)) =>
          match SplitLine(t2)
          case None => None
          case Some((third, t3)) =>
            if third != "+" then None
            else
              match SplitLine(t3)
              case None => None
              case Some((fourth, t4)) =>
                if t4 != [] then None
                else
                  match DecodeQuality(fourth)
                  case None => None
                  case Some(q) => Some((first[1..], second, q))
  }

  /** A line without a newline is split off exactly. */
  lemma {:induction false} SplitLineAfter(line: string, rest: string)
    requires NoNewline(line)
    ensures SplitLine(line + "\n" + rest) == Some((line, rest))
  {
    var text := line + "\n" + rest;
    if |line| > 0 {
      assert text[1..] == line[1..] + "\n" + rest;
      SplitLineAfter(line[1..], rest);
      assert [text[0]] + line[1..] == line;
    } else {
      assert text[1..] == rest;
    }
  }

  /** Decoding the quality line gives back the scores. */
  lemma DecodeQualityString(quality: seq<byte>)
    ensures DecodeQuality(QualityString(quality)) == Some(quality)
  {
    var line := QualityString(quality);
    assert forall i :: 0 <= i < |line| ==> 33 <= line[i] as int < 289;
    var q := seq(|line|, i requires 0 <= i < |line| => (line[i] as int - 33) as byte);
    assert q == quality;
  }

  /** The record text round-trips through the parser whenever the read name and
      the bases hold no newline. */
  lemma RecordRoundTrip(header: string, sequence: string, quality: seq<byte>)
    requires NoNewline(header) && NoNewline(sequence)
    ensures ParseRecord(FastqRecord(header, sequence, quality)) == Some((header, sequence, quality))
  {
    var qs := QualityString(quality);
    var t3 := qs + "\n";
    var t2 := "+" + "\n" + t3;
    var t1 := sequence + "\n" + t2;
    var first := "@" + header;
    assert FastqRecord(header, sequence, quality) == first + "\n" + t1;
    assert NoNewline(first) by {
      assert forall i :: 1 <= i < |first| ==> first[i] == header[i - 1];
    }
    SplitLineAfter(first, t1);
    SplitLineAfter(sequence, t2);
    SplitLineAfter("+", t3);
    SplitLineAfter(qs, []);
    assert qs + "\n" + [] == t3;
    DecodeQualityString(quality);
    assert first[1..] == header;
  }
}
