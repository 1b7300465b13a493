/** The text published to the telemetry broker: the status message and
    the `&`-separated payload, with the splitting that takes them apart
    again. */
module Telemetry {
  import opened Wrappers
  import opened Decimal
  import AirQuality

  /** One tick's readings as they enter the payload. The Fahrenheit
      temperature and the relative humidity are floats in the program; they
      are kept here as the text Python renders for them. */
  datatype Reading = Reading(
    temperatureF: string,
    humidity: string,
    compensatedRawGas: int,
    vocIndex: int)

  /** `status_msg`: clock block, " - Air: ", the label, then the VOC index
      in parentheses. */
  function StatusMsg(clock: string, quality: string, voc: int): (status: string)
    ensures |status| > |clock| + |quality| && status[..|clock|] == clock
    ensures status[|status| - 1] == ')'
  {
    clock + " - Air: " + quality + " (" + IntToString(voc) + ")"
  }

  /** `thingspeak_payload`: five `key=value` fields in fixed order. */
  function Payload(r: Reading, status: string): (payload: string)
    ensures |payload| >= |status| && payload[|payload| - |status|..] == status
  {
    "field1=" + r.temperatureF
    + "&field2=" + r.humidity
    + "&field3=" + IntToString(r.compensatedRawGas)
    + "&field4=" + IntToString(r.vocIndex)
    + "&status=" + status
  }

  /** The payload one publish sends for a reading taken at `clock`. */
  function PublishPayload(clock: string, r: Reading): (payload: string)
    ensures var tail := " (" + IntToString(r.vocIndex) + ")";
      |payload| >= |tail| && payload[|payload| - |tail|..] == tail
  {
    Payload(r, StatusMsg(clock, AirQuality.Classify(r.vocIndex), r.vocIndex))
  }

  /** Python's `s.split(sep)`: the pieces between separators, always at
      least one. */
  function Split(s: string, sep: char): (parts: seq<string>)
    ensures |parts| >= 1
    ensures forall i :: 0 <= i < |parts| ==> sep !in parts[i]
    decreases |s|
  {
    if |s| == 0 then [""]
    else
      var rest := Split(s[1..], sep);
      if s[0] == sep then [""] + rest
      else [[s[0]] + rest[0]] + rest[1..]
  }

  /** Python's `sep.join(parts)`. */
  function Join(parts: seq<string>, sep: char): string
    requires |parts| >= 1
  {
    if |parts| == 1 then parts[0] else parts[0] + [sep] + Join(parts[1..], sep)
  }

  lemma {:induction false} SplitWithout(x: string, sep: char)
    requires sep !in x
    ensures Split(x, sep) == [x]
    decreases |x|
  {
    if |x| > 0 {
      SplitWithout(x[1..], sep);
      assert [x[0]] + x[1..] == x;
    }
  }

  lemma {:induction false} SplitFirst(x: string, y: string, sep: char)
    requires sep !in x
    ensures Split(x + [sep] + y, sep) == [x] + Split(y, sep)
    decreases |x|
  {
    var s := x + [sep] + y;
    if |x| == 0 {
      assert s[1..] == y;
    } else {
      assert s[1..] == x[1..] + [sep] + y;
      SplitFirst(x[1..], y, sep);
      assert [x[0]] + x[1..] == x;
    }
  }

  /** Splitting undoes joining when no part holds the separator. */
  lemma {:induction false} SplitJoin(parts: seq<string>, sep: char)
    requires |parts| >= 1
    requires forall i :: 0 <= i < |parts| ==> sep !in parts[i]
    ensures Split(Join(parts, sep), sep) == parts
    decreases |parts|
  {
    if |parts| == 1 {
      SplitWithout(parts[0], sep);
    } else {
      SplitJoin(parts[1..], sep);
      SplitFirst(parts[0], Join(parts[1..], sep), sep);
      assert [parts[0]] + parts[1..] == parts;
    }
  }

  /** Joining undoes splitting, for every string. */
  lemma {:induction false} JoinSplit(s: string, sep: char)
    ensures Join(Split(s, sep), sep) == s
    decreases |s|
  {
    if |s| > 0 {
      var rest := Split(s[1..], sep);
      JoinSplit(s[1..], sep);
      if s[0] == sep {
        assert ([""] + rest)[1..] == rest;
        assert [sep] + s[1..] == s;
      } else {
        var parts := [[s[0]] + rest[0]] + rest[1..];
        assert parts[1..] == rest[1..];
        if |rest| > 1 {
          assert Join(rest, sep) == rest[0] + [sep] + Join(rest[1..], sep);
        }
        assert [s[0]] + s[1..] == s;
      }
    }
  }

  /** The payload is exactly the five fields in order, joined by '&'. */
  lemma PayloadIsJoin(r: Reading, status: string)
    ensures Payload(r, status) == Join(PayloadFields(r, status), '&')
  {
    var f := PayloadFields(r, status);
    PayloadConcat(r, status);
    JoinFive(f[0], f[1], f[2], f[3], f[4], '&');
    assert f == [f[0], f[1], f[2], f[3], f[4]];
  }

  lemma PayloadConcat(r: Reading, status: string)
    ensures var f := PayloadFields(r, status);
      Payload(r, status) == f[0] + ['&'] + f[1] + ['&'] + f[2] + ['&'] + f[3] + ['&'] + f[4]
  {
    var amp := ['&'];
    assert "&field2=" == amp + "field2=";
    assert "&field3=" == amp + "field3=";
    assert "&field4=" == amp + "field4=";
    assert "&status=" == amp + "status=";
  }

  lemma JoinFive(a: string, b: string, c: string, d: string, e: string, sep: char)
    ensures Join([a, b, c, d, e], sep) == a + [sep] + b + [sep] + c + [sep] + d + [sep] + e
  {
    var p := [a, b, c, d, e];
    assert p[1..] == [b, c, d, e];
    assert p[1..][1..] == [c, d, e];
    assert p[1..][1..][1..] == [d, e];
    assert p[1..][1..][1..][1..] == [e];
    assert Join(p[1..][1..][1..], sep) == d + [sep] + e;
    assert Join(p[1..][1..], sep) == c + [sep] + (d + [sep] + e);
    assert Join(p[1..], sep) == b + [sep] + (c + [sep] + (d + [sep] + e));
    calc {
      Join(p, sep);
      a + [sep] + (b + [sep] + (c + [sep] + (d + [sep] + e)));
      a + [sep] + b + [sep] + c + [sep] + d + [sep] + e;
    }
  }

  /** The fields of the payload in their fixed order. */
  function PayloadFields(r: Reading, status: string): (fields: seq<string>)
    ensures |fields| == 5
  {
    ["field1=" + r.temperatureF,
     "field2=" + r.humidity,
     "field3=" + IntToString(r.compensatedRawGas),
     "field4=" + IntToString(r.vocIndex),
     "status=" + status]
  }

  /** When neither float rendering nor the status holds '&', splitting the
      payload on '&' yields the five fields in their fixed order. */
  lemma PayloadSplits(r: Reading, status: string)
    requires '&' !in r.temperatureF && '&' !in r.humidity && '&' !in status
    ensures Split(Payload(r, status), '&') == PayloadFields(r, status)
  {
    var f := PayloadFields(r, status);
    IntToStringAvoids(r.compensatedRawGas, '&');
    IntToStringAvoids(r.vocIndex, '&');
    assert forall i :: 0 <= i < 5 ==> '&' !in f[i];
    PayloadIsJoin(r, status);
    SplitJoin(f, '&');
  }

  /** What follows the last `c` in `s` (all of `s` when there is none). */
  function SuffixAfterLast(s: string, c: char): (r: string)
    ensures c !in r
    ensures |r| <= |s| && r == s[|s| - |r|..]
    decreases |s|
  {
    if |s| == 0 then ""
    else if s[|s| - 1] == c then ""
    else SuffixAfterLast(s[..|s| - 1], c) + [s[|s| - 1]]
  }

  lemma {:induction false} SuffixAfterLastOf(x: string, y: string, c: char)
    requires c !in y
    ensures SuffixAfterLast(x + [c] + y, c) == y
    decreases |y|
  {
    var s := x + [c] + y;
    if |y| > 0 {
      var y' := y[..|y| - 1];
      assert s[..|s| - 1] == x + [c] + y';
      assert s[|s| - 1] == y[|y| - 1];
      assert y[|y| - 1] != c by {
        assert y[|y| - 1] in y;
      }
      SuffixAfterLastOf(x, y', c);
      assert y' + [y[|y| - 1]] == y;
    } else {
      assert s[|s| - 1] == c;
    }
  }

  /** Reads the VOC index back from the parentheses that end a status
      message. */
  function StatusVoc(status: string): Option<int>
  {
    if |status| > 0 && status[|status| - 1] == ')' then
      var inner := SuffixAfterLast(status[..|status| - 1], '(');
      if IsIntLiteral(inner) then Some(ParseInt(inner)) else None
    else None
  }

  /** The index in a status message can always be read back, whatever the
      clock text and the label hold. */
  lemma StatusVocRoundTrip(clock: string, quality: string, voc: int)
    ensures StatusVoc(StatusMsg(clock, quality, voc)) == Some(voc)
  {
    var digits := IntToString(voc);
    var status := StatusMsg(clock, quality, voc);
    var head := clock + " - Air: " + quality + " ";
    assert status[..|status| - 1] == head + ['('] + digits;
    IntToStringAvoids(voc, '(');
    SuffixAfterLastOf(head, digits, '(');
    IntToStringRoundTrip(voc);
  }

  /** Everything one publish sends: with a clock block and float renderings
      free of '&', the payload splits into the five fields, the fourth
      carries the index, and the status carries the label for that index and
      the same index again. */
  lemma PublishPayloadFields(clock: string, r: Reading)
    requires '&' !in clock && '&' !in r.temperatureF && '&' !in r.humidity
    ensures var fields := Split(PublishPayload(clock, r), '&');
      && |fields| == 5
      && fields[0] == "field1=" + r.temperatureF
      && fields[1] == "field2=" + r.humidity
      && fields[2] == "field3=" + IntToString(r.compensatedRawGas)
      && fields[3] == "field4=" + IntToString(r.vocIndex)
      && fields[4] == "status=" + StatusMsg(clock, AirQuality.Classify(r.vocIndex), r.vocIndex)
      && StatusVoc(fields[4][7..]) == Some(r.vocIndex)
  {
    var quality := AirQuality.Classify(r.vocIndex);
    var status := StatusMsg(clock, quality, r.vocIndex);
    StatusAvoidsAmp(clock, quality, r.vocIndex);
    PayloadSplits(r, status);
    var f := PayloadFields(r, status);
    assert f[4] == "status=" + status;
    StatusVocRoundTrip(clock, quality, r.vocIndex);
    assert f[4][7..] == status;
  }

  lemma StatusAvoidsAmp(clock: string, quality: string, voc: int)
    requires '&' !in clock
    requires quality == AirQuality.Classify(voc)
    ensures '&' !in StatusMsg(clock, quality, voc)
  {
    IntToStringAvoids(voc, '&');
    assert '&' !in quality;
  }
}
