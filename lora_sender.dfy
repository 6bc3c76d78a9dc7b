/** LoRa transmission on the sensor node: the CSV payload of one reading
    and the `AT+SEND` command `send_lora_message` passes to `send_command`. */
module LoraSender {
  import opened Wrappers
  import opened Text
  import opened AtCommand

  /** `initialize_lora` on the sensor node sets `AT+ADDRESS=1`. */
  const SenderAddress: nat := 1
  /** `send_lora_message` always sends to node 2. */
  const Destination: nat := 2

  const SendPrefix: string := "AT+SEND="

  /** The CSV payload: the six rendered readings (air temperature, humidity,
      surface temperature, visible mean, NIR/green ratio, whiteness) joined
      by commas. The renderings themselves are opaque strings. */
  function CsvPayload(airTemp: string, humidity: string, surfaceTemp: string,
                      visMean: string, nirGreenRatio: string, whiteness: string): (p: string)
    ensures p == Join([airTemp, humidity, surfaceTemp, visMean, nirGreenRatio, whiteness], Comma)
  {
    var fs := [airTemp, humidity, surfaceTemp, visMean, nirGreenRatio, whiteness];
    assert Join(fs[5..], Comma) == whiteness;
    assert Join(fs[4..], Comma) == nirGreenRatio + [Comma] + Join(fs[5..], Comma);
    assert Join(fs[3..], Comma) == visMean + [Comma] + Join(fs[4..], Comma);
    assert Join(fs[2..], Comma) == surfaceTemp + [Comma] + Join(fs[3..], Comma);
    assert Join(fs[1..], Comma) == humidity + [Comma] + Join(fs[2..], Comma);
    assert Join(fs, Comma) == airTemp + [Comma] + Join(fs[1..], Comma);
    airTemp + "," + humidity + "," + surfaceTemp + "," + visMean + "," + nirGreenRatio + "," + whiteness
  }

  /** Splitting the payload gives the six renderings back, in order, when
      none of them holds a comma (decimal renderings never do). */
  lemma CsvFields(airTemp: string, humidity: string, surfaceTemp: string,
                  visMean: string, nirGreenRatio: string, whiteness: string)
    requires Comma !in airTemp && Comma !in humidity && Comma !in surfaceTemp
    requires Comma !in visMean && Comma !in nirGreenRatio && Comma !in whiteness
    ensures Split(CsvPayload(airTemp, humidity, surfaceTemp, visMean, nirGreenRatio, whiteness), Comma)
         == [airTemp, humidity, surfaceTemp, visMean, nirGreenRatio, whiteness]
  {
    SplitJoin([airTemp, humidity, surfaceTemp, visMean, nirGreenRatio, whiteness], Comma);
  }

  /** The part of the `AT+SEND` command before the payload:
      `AT+SEND=2,<length>,`. It is plain ASCII. */
  function SendHeader(length: nat): (h: string)
    ensures StartsWith(h, SendPrefix) && IsAscii(h) && h[|h| - 1] == Comma
  {
    var h := SendPrefix + Decimal(Destination) + "," + Decimal(length) + ",";
    assert IsAscii(h) by {
      forall k | 0 <= k < |h| ensures h[k] as int < 0x80 {
        assert h[k] in SendPrefix || IsDigit(h[k]) || h[k] == Comma;
      }
    }
    h
  }

  /** `send_lora_message`: `AT+SEND=2,<len(data)>,<data>`, where `len`
      counts characters. The command starts with the send prefix and ends
      with the data unchanged. */
  function SendCommand(data: string): (cmd: string)
    ensures StartsWith(cmd, SendPrefix) && |cmd| > |data| && cmd[|cmd| - |data|..] == data
  {
    var h := SendHeader(|data|);
    assert (h + data)[..|SendPrefix|] == h[..|SendPrefix|];
    h + data
  }

  /** What goes onto the UART for one message: the header's bytes, one per
      character, then the data's UTF-8 bytes, then CR LF. */
  function SendFrame(data: string): (f: seq<Byte>)
    ensures |Utf8Encode(SendHeader(|data|))| == |SendHeader(|data|)|
    ensures f == Utf8Encode(SendHeader(|data|)) + Utf8Encode(data) + [0x0D, 0x0A]
  {
    Utf8Concat(SendHeader(|data|), data);
    CommandBytes(SendCommand(data))
  }

  /** The fields of an `AT+SEND` command: destination, declared length and
      the payload. */
  datatype SendRequest = SendRequest(address: nat, length: nat, payload: string)

  /** Reading an `AT+SEND` command back: the destination and the length are
      the decimal numbers before the first and the second comma, the payload
      is everything after the second comma (commas included). */
  function ParseSendCommand(cmd: string): (r: Option<SendRequest>)
    ensures r.Some? ==> StartsWith(cmd, SendPrefix)
  {
    if !StartsWith(cmd, SendPrefix) then None
    else
      match SplitOnce(cmd[|SendPrefix|..], Comma)
      case None => None
      case Some((a, rest)) =>
        match SplitOnce(rest, Comma)
        case None => None
        case Some((l, p)) =>
          match (ParseNat(a), ParseNat(l))
          case (Some(addr), Some(len)) => Some(SendRequest(addr, len, p))
          case _ => None
  }

  /** Every command `send_lora_message` builds reads back as a send to node
      2 whose declared length is the payload's length and whose payload is
      the data, whatever commas the data holds. */
  lemma {:induction false} SendCommandRoundTrip(data: string)
    ensures ParseSendCommand(SendCommand(data)) == Some(SendRequest(Destination, |data|, data))
  {
    var a, l := Decimal(Destination), Decimal(|data|);
    var cmd, tail := SendCommand(data), l + [Comma] + data;
    var rest := a + [Comma] + tail;
    assert StartsWith(cmd, SendPrefix) && cmd[|SendPrefix|..] == rest by {
      assert cmd == SendPrefix + rest;
    }
    assert Comma !in a && Comma !in l by {
      assert !IsDigit(Comma);
    }
    assert SplitOnce(rest, Comma) == Some((a, tail)) by {
      SplitOnceAt(a, Comma, tail);
    }
    assert SplitOnce(tail, Comma) == Some((l, data)) by {
      SplitOnceAt(l, Comma, data);
    }
    ParseDecimal(Destination);
    ParseDecimal(|data|);
  }

  /** The length field counts characters, so it agrees with the number of
      payload bytes on the UART exactly when the data is ASCII; for ASCII
      data the module reads back exactly the `AT+SEND` command. */
  lemma SendFrameLength(data: string)
    ensures |Utf8Encode(data)| == |data| <==> IsAscii(data)
    ensures IsAscii(data) ==> ReadLine(SendFrame(data)) == Some(SendCommand(data))
  {
    if IsAscii(data) {
      AsciiConcat(SendHeader(|data|), data);
      ReadCommandBytes(SendCommand(data));
    }
  }
}
