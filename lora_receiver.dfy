/** The `+RCV` line parser of the receiver node's `receive_messages`: one
    line the RYLR998 module reports, `+RCV=<addr>,<len>,<payload>,<RSSI>,<SNR>`,
    becomes either a sensor record to forward to the API or nothing.
    Number conversion (`float`) is a parameter `parseNum`, `None` standing
    for the `ValueError` it raises. */
module LoraReceiver {
  import opened Wrappers
  import opened Text

  const RcvPrefix: string := "+RCV="
  /** The device identifier every forwarded record carries. */
  const DeviceId: int := 16
  /** The number of CSV values a payload must hold. */
  const ValueCount: nat := 6

  /** The JSON object handed to `send_data_to_api`. */
  datatype SensorRecord<V> = SensorRecord(
    deviceId: int,
    airTemp: V,
    humidity: V,
    surfaceTemp: V,
    visMean: V,
    nirGreenRatio: V,
    whitenessIndex: V)

  /** What one line leads to: ignored (not a `+RCV` line), reported as a
      malformed packet, reported as a conversion error, or forwarded. */
  datatype Outcome<V> = Ignored | Malformed | ConversionError | Forward(record: SensorRecord<V>)

  /** The comma-separated fields of the stripped line. */
  function Parts(line: string): (parts: seq<string>)
    ensures |parts| >= 1
    ensures Join(parts, Comma) == Strip(line)
  {
    JoinSplit(Strip(line), Comma);
    Split(Strip(line), Comma)
  }

  /** `parts[2:-2]`: everything between the length field and the RSSI and
      SNR fields; empty when the line has fewer than five fields. */
  function MiddleFields(parts: seq<string>): (r: seq<string>)
    ensures |r| == if |parts| >= 4 then |parts| - 4 else 0
    ensures forall k :: 0 <= k < |r| ==> r[k] == parts[k + 2]
  {
    PySlice(parts, 2, -2)
  }

  /** The payload the receiver recovers from a line, `None` when the
      stripped line does not start with `+RCV=`. */
  function Payload(line: string): (p: Option<string>)
    ensures p.Some? <==> StartsWith(Strip(line), RcvPrefix)
  {
    if StartsWith(Strip(line), RcvPrefix) then Some(Join(MiddleFields(Parts(line)), Comma))
    else None
  }

  /** The six values converted in order and mapped onto the record. */
  function Convert<V>(values: seq<string>, parseNum: string -> Option<V>): (o: Outcome<V>)
    requires |values| == ValueCount
    ensures o.Forward? || o.ConversionError?
    ensures o.Forward? <==> forall k :: 0 <= k < ValueCount ==> parseNum(values[k]).Some?
    ensures o.Forward? ==>
              && o.record.deviceId == DeviceId
              && Some(o.record.airTemp) == parseNum(values[0])
              && Some(o.record.humidity) == parseNum(values[1])
              && Some(o.record.surfaceTemp) == parseNum(values[2])
              && Some(o.record.visMean) == parseNum(values[3])
              && Some(o.record.nirGreenRatio) == parseNum(values[4])
              && Some(o.record.whitenessIndex) == parseNum(values[5])
  {
    match (parseNum(values[0]), parseNum(values[1]), parseNum(values[2]),
           parseNum(values[3]), parseNum(values[4]), parseNum(values[5]))
    case (Some(airTemp), Some(humidity), Some(surfaceTemp), Some(vis), Some(nir), Some(white)) =>
      Forward(SensorRecord(DeviceId, airTemp, humidity, surfaceTemp, vis, nir, white))
    case _ =>
      ConversionError
  }

  /** What a recovered payload leads to. */
  function FromPayload<V>(payload: string, parseNum: string -> Option<V>): (o: Outcome<V>)
    ensures !o.Ignored?
    ensures o.Malformed? <==> |Split(payload, Comma)| != ValueCount
    ensures o.Forward? ==> o.record.deviceId == DeviceId
  {
    var values := Split(payload, Comma);
    if |values| == ValueCount then Convert(values, parseNum) else Malformed
  }

  /** The body of the receive loop for one decoded line. */
  function Receive<V>(line: string, parseNum: string -> Option<V>): (o: Outcome<V>)
    ensures o.Ignored? <==> !StartsWith(Strip(line), RcvPrefix)
    ensures o.Forward? ==> o.record.deviceId == DeviceId
  {
    match Payload(line)
    case None => Ignored
    case Some(p) => FromPayload(p, parseNum)
  }

  /** The record handed to the API, if any. */
  function Forwarded<V>(line: string, parseNum: string -> Option<V>): (r: Option<SensorRecord<V>>)
    ensures r.Some? <==> Receive(line, parseNum).Forward?
    ensures r.Some? ==>
              && r.value == Receive(line, parseNum).record
              && r.value.deviceId == DeviceId
              && StartsWith(Strip(line), RcvPrefix)
  {
    var o := Receive(line, parseNum);
    if o.Forward? then Some(o.record) else None
  }

  /** Split/join round trip: re-splitting the rejoined payload gives back
      the middle fields exactly, or `[""]` when there are none. */
  lemma ValuesOfLine(line: string)
    requires StartsWith(Strip(line), RcvPrefix)
    ensures Split(Payload(line).value, Comma)
         == if |Parts(line)| >= 5 then MiddleFields(Parts(line)) else [""]
  {
    var mid := MiddleFields(Parts(line));
    if |mid| >= 1 {
      assert forall k :: 0 <= k < |mid| ==> Comma !in mid[k] by {
        SplitFieldsSepFree(Strip(line), Comma);
      }
      SplitJoin(mid, Comma);
    }
  }

  /** The outcome of a `+RCV` line in terms of its fields: the conversion
      of the middle fields when there are ten fields, malformed otherwise. */
  lemma ReceiveOfRcvLine<V>(line: string, parseNum: string -> Option<V>)
    requires StartsWith(Strip(line), RcvPrefix)
    ensures |Parts(line)| == 10 ==>
              Receive(line, parseNum) == Convert(MiddleFields(Parts(line)), parseNum)
    ensures |Parts(line)| != 10 ==> Receive(line, parseNum).Malformed?
  {
    ValuesOfLine(line);
  }

  /** A `+RCV` line is accepted as a packet (not malformed) exactly when it
      has ten comma-separated fields: two header fields, six values and the
      RSSI and SNR fields. */
  lemma AcceptedIffTenFields<V>(line: string, parseNum: string -> Option<V>)
    requires StartsWith(Strip(line), RcvPrefix)
    ensures Receive(line, parseNum).Malformed? <==> |Parts(line)| != 10
  {
    ReceiveOfRcvLine(line, parseNum);
  }

  /** For ten fields, converting the middle six succeeds exactly when each
      of fields 2..7 converts, and builds the record from them in order. */
  lemma ConvertOfFields<V>(parts: seq<string>, parseNum: string -> Option<V>)
    requires |parts| == 10
    ensures Convert(MiddleFields(parts), parseNum).Forward? <==>
      forall k :: 2 <= k < 8 ==> parseNum(parts[k]).Some?
    ensures Convert(MiddleFields(parts), parseNum).Forward? ==>
      Convert(MiddleFields(parts), parseNum).record
      == SensorRecord(DeviceId,
                      parseNum(parts[2]).value, parseNum(parts[3]).value, parseNum(parts[4]).value,
                      parseNum(parts[5]).value, parseNum(parts[6]).value, parseNum(parts[7]).value)
  {
    var mid := MiddleFields(parts);
    assert mid == [parts[2], parts[3], parts[4], parts[5], parts[6], parts[7]];
    assert forall k :: 2 <= k < 8 ==> parts[k] == mid[k - 2];
  }

  /** A line is forwarded exactly when it is a `+RCV` line with ten fields
      whose six middle fields all convert; the record then holds the
      converted values in payload order and device identifier 16. */
  lemma ForwardedRecord<V>(line: string, parseNum: string -> Option<V>)
    ensures Receive(line, parseNum).Forward? <==>
      StartsWith(Strip(line), RcvPrefix) && |Parts(line)| == 10
      && forall k :: 2 <= k < 8 ==> parseNum(Parts(line)[k]).Some?
    ensures Receive(line, parseNum).Forward? ==>
      var parts, r := Parts(line), Receive(line, parseNum).record;
      r == SensorRecord(DeviceId,
                        parseNum(parts[2]).value, parseNum(parts[3]).value, parseNum(parts[4]).value,
                        parseNum(parts[5]).value, parseNum(parts[6]).value, parseNum(parts[7]).value)
  {
    if StartsWith(Strip(line), RcvPrefix) {
      ReceiveOfRcvLine(line, parseNum);
      if |Parts(line)| == 10 {
        ConvertOfFields(Parts(line), parseNum);
      }
    }
  }

  /** A `+RCV=` line with the given header, payload and trailer fields
      (the concatenation is grouped from the right). */
  function RcvLine(addr: string, len: string, payload: string, rssi: string, snr: string): string {
    (RcvPrefix + addr) + [Comma] + (len + [Comma] + (payload + [Comma] + (rssi + [Comma] + snr)))
  }

  /** Stripping a `+RCV=` line only removes whitespace after the SNR field. */
  lemma StripRcvLine(addr: string, len: string, payload: string, rssi: string, snr: string)
    ensures Strip(RcvLine(addr, len, payload, rssi, snr)) == RcvLine(addr, len, payload, rssi, TrimRight(snr))
    ensures Comma !in snr ==> Comma !in TrimRight(snr)
  {
    var h := RcvPrefix + addr;
    var t3 := rssi + [Comma] + snr;
    var t2 := payload + [Comma] + t3;
    var t1 := len + [Comma] + t2;
    var s := TrimRight(snr);
    assert TrimLeft(h + [Comma] + t1) == h + [Comma] + t1 by {
      assert (h + [Comma] + t1)[0] == '+';
    }
    assert TrimRight(t3) == rssi + [Comma] + s by {
      TrimRightAfter(rssi, Comma, snr);
    }
    assert TrimRight(t2) == payload + [Comma] + (rssi + [Comma] + s) by {
      TrimRightAfter(payload, Comma, t3);
    }
    assert TrimRight(t1) == len + [Comma] + (payload + [Comma] + (rssi + [Comma] + s)) by {
      TrimRightAfter(len, Comma, t2);
    }
    assert TrimRight(h + [Comma] + t1) == h + [Comma] + TrimRight(t1) by {
      TrimRightAfter(h, Comma, t1);
    }
    assert Comma !in snr ==> Comma !in s by {
      assert forall k :: 0 <= k < |s| ==> s[k] == snr[k];
    }
  }

  /** A `+RCV=` line with comma-free header and trailer fields splits into
      them around the payload's own fields. */
  lemma SplitRcvLine(addr: string, len: string, payload: string, rssi: string, snr: string)
    requires Comma !in addr && Comma !in len && Comma !in rssi && Comma !in snr
    ensures Split(RcvLine(addr, len, payload, rssi, snr), Comma)
         == [RcvPrefix + addr, len] + Split(payload, Comma) + [rssi, snr]
  {
    var h := RcvPrefix + addr;
    var t3 := rssi + [Comma] + snr;
    var t2 := payload + [Comma] + t3;
    var t1 := len + [Comma] + t2;
    assert Comma !in h by {
      assert forall k :: 0 <= k < |RcvPrefix| ==> h[k] == RcvPrefix[k];
      assert forall k :: |RcvPrefix| <= k < |h| ==> h[k] == addr[k - |RcvPrefix|];
    }
    var pf := Split(payload, Comma);
    assert Split(t3, Comma) == [rssi, snr] by {
      SplitAppend(rssi, Comma, snr);
      SplitOfSepFree(rssi, Comma);
      SplitOfSepFree(snr, Comma);
    }
    assert Split(t2, Comma) == pf + [rssi, snr] by {
      SplitAppend(payload, Comma, t3);
    }
    assert Split(t1, Comma) == [len] + (pf + [rssi, snr]) by {
      SplitAppend(len, Comma, t2);
      SplitOfSepFree(len, Comma);
    }
    assert Split(h + [Comma] + t1, Comma) == [h] + ([len] + (pf + [rssi, snr])) by {
      SplitAppend(h, Comma, t1);
      SplitOfSepFree(h, Comma);
    }
    assert [h] + ([len] + (pf + [rssi, snr])) == [h, len] + pf + [rssi, snr];
  }

  /** The address, length, RSSI and SNR fields never influence the outcome:
      for comma-free header and trailer fields the recovered payload is the
      payload itself, commas and all, and the line leads to what its payload
      leads to. */
  lemma {:induction false} HeaderIgnored<V>(addr: string, len: string, payload: string,
                                            rssi: string, snr: string, parseNum: string -> Option<V>)
    requires Comma !in addr && Comma !in len && Comma !in rssi && Comma !in snr
    ensures Payload(RcvLine(addr, len, payload, rssi, snr)) == Some(payload)
    ensures Receive(RcvLine(addr, len, payload, rssi, snr), parseNum) == FromPayload(payload, parseNum)
  {
    var line := RcvLine(addr, len, payload, rssi, snr);
    var s := TrimRight(snr);
    var stripped := RcvLine(addr, len, payload, rssi, s);
    assert Strip(line) == stripped && Comma !in s by {
      StripRcvLine(addr, len, payload, rssi, snr);
    }
    assert StartsWith(stripped, RcvPrefix) by {
      assert stripped[..|RcvPrefix|] == RcvPrefix;
    }
    var pf := Split(payload, Comma);
    var parts := Parts(line);
    assert parts == [RcvPrefix + addr, len] + pf + [rssi, s] by {
      SplitRcvLine(addr, len, payload, rssi, s);
    }
    assert MiddleFields(parts) == pf by {
      var mid := MiddleFields(parts);
      assert |mid| == |pf|;
      forall k | 0 <= k < |pf| ensures mid[k] == pf[k] {
        assert parts[k + 2] == pf[k];
      }
    }
    assert Join(pf, Comma) == payload by {
      JoinSplit(payload, Comma);
    }
  }

  /** Hence two lines that differ only in their header and trailer fields
      lead to the same outcome. */
  lemma HeaderIndependent<V>(a1: string, l1: string, r1: string, s1: string,
                             a2: string, l2: string, r2: string, s2: string,
                             payload: string, parseNum: string -> Option<V>)
    requires Comma !in a1 && Comma !in l1 && Comma !in r1 && Comma !in s1
    requires Comma !in a2 && Comma !in l2 && Comma !in r2 && Comma !in s2
    ensures Receive(RcvLine(a1, l1, payload, r1, s1), parseNum)
         == Receive(RcvLine(a2, l2, payload, r2, s2), parseNum)
  {
    HeaderIgnored(a1, l1, payload, r1, s1, parseNum);
    HeaderIgnored(a2, l2, payload, r2, s2, parseNum);
  }
}
