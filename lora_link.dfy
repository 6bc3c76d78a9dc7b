/** The two nodes together: the sensor node's `AT+SEND` command, relayed by
    the radio modules, read by the receiver's `+RCV` parser. */
module LoraLink {
  import opened Wrappers
  import opened Text
  import opened AtCommand
  import opened LoraSender
  import opened LoraReceiver

  /** `initialize_lora` on the receiver node sets `AT+ADDRESS=2`. */
  const ReceiverAddress: nat := 2

  /** The radio link as the receiver's documentation describes it: an
      `AT+SEND` command addressed to the receiving module, whose declared
      length matches its payload, is reported there as
      `+RCV=<sender address>,<length>,<payload>,<RSSI>,<SNR>` and a CR LF.
      This is a model of the module, not of code in the repository. */
  function Relay(command: string, senderAddress: nat, receiverAddress: nat, rssi: int, snr: int): (line: Option<string>)
    ensures line.Some? ==>
              && ParseSendCommand(command).Some?
              && ParseSendCommand(command).value.address == receiverAddress
  {
    match ParseSendCommand(command)
    case None => None
    case Some(req) =>
      if req.address == receiverAddress && req.length == |req.payload| then
        Some(RcvLine(Decimal(senderAddress), Decimal(req.length), req.payload,
                     IntToString(rssi), IntToString(snr) + "\r\n"))
      else None
  }

  /** Both nodes join the same network on the same band, and the sensor
      node sends to the receiver's address. */
  lemma NodesConfigured()
    ensures InitCommands(SenderAddress)[2..] == InitCommands(ReceiverAddress)[2..]
    ensures Destination == ReceiverAddress != SenderAddress
  {
  }

  /** Sender/receiver agreement: every reading the sensor node sends, whose
      six renderings hold no comma, arrives at the receiver carrying exactly
      the sent payload, and leads to a record whose fields are the sent
      values in the order AirTemp, Humidity, SurfaceTemp, VIS_Mean,
      NIR_Green_Ratio, WhitenessIndex, or to a conversion error when one of
      them does not convert. RSSI and SNR play no part. */
  lemma {:induction false} EndToEnd<V>(airTemp: string, humidity: string, surfaceTemp: string,
                                       visMean: string, nirGreenRatio: string, whiteness: string,
                                       rssi: int, snr: int, parseNum: string -> Option<V>)
    requires Comma !in airTemp && Comma !in humidity && Comma !in surfaceTemp
    requires Comma !in visMean && Comma !in nirGreenRatio && Comma !in whiteness
    ensures
      var data := CsvPayload(airTemp, humidity, surfaceTemp, visMean, nirGreenRatio, whiteness);
      var line := Relay(SendCommand(data), SenderAddress, ReceiverAddress, rssi, snr);
      line.Some? && Payload(line.value) == Some(data)
      && Receive(line.value, parseNum)
         == Convert([airTemp, humidity, surfaceTemp, visMean, nirGreenRatio, whiteness], parseNum)
  {
    var data := CsvPayload(airTemp, humidity, surfaceTemp, visMean, nirGreenRatio, whiteness);
    SendCommandRoundTrip(data);
    var addr, len := Decimal(SenderAddress), Decimal(|data|);
    var r, s := IntToString(rssi), IntToString(snr) + "\r\n";
    assert Comma !in addr && Comma !in len by {
      assert !IsDigit(Comma);
    }
    assert Comma !in s;
    HeaderIgnored(addr, len, data, r, s, parseNum);
    CsvFields(airTemp, humidity, surfaceTemp, visMean, nirGreenRatio, whiteness);
  }

  /** The same agreement starting from the bytes on the sensor node's UART:
      when the six renderings are also ASCII (decimal renderings are), the
      module reads the frame back as the `AT+SEND` command, and relaying that
      command leads to the same record. */
  lemma EndToEndFrame<V>(airTemp: string, humidity: string, surfaceTemp: string,
                         visMean: string, nirGreenRatio: string, whiteness: string,
                         rssi: int, snr: int, parseNum: string -> Option<V>)
    requires Comma !in airTemp && Comma !in humidity && Comma !in surfaceTemp
    requires Comma !in visMean && Comma !in nirGreenRatio && Comma !in whiteness
    requires IsAscii(airTemp) && IsAscii(humidity) && IsAscii(surfaceTemp)
    requires IsAscii(visMean) && IsAscii(nirGreenRatio) && IsAscii(whiteness)
    ensures
      var data := CsvPayload(airTemp, humidity, surfaceTemp, visMean, nirGreenRatio, whiteness);
      var cmd := ReadLine(SendFrame(data));
      cmd == Some(SendCommand(data))
      && var line := Relay(cmd.value, SenderAddress, ReceiverAddress, rssi, snr);
         line.Some? && Payload(line.value) == Some(data)
         && Receive(line.value, parseNum)
            == Convert([airTemp, humidity, surfaceTemp, visMean, nirGreenRatio, whiteness], parseNum)
  {
    var data := CsvPayload(airTemp, humidity, surfaceTemp, visMean, nirGreenRatio, whiteness);
    assert IsAscii(data) by {
      assert IsAscii(",");
      var acc := airTemp;
      AsciiConcat(acc, ","); acc := acc + ",";
      AsciiConcat(acc, humidity); acc := acc + humidity;
      AsciiConcat(acc, ","); acc := acc + ",";
      AsciiConcat(acc, surfaceTemp); acc := acc + surfaceTemp;
      AsciiConcat(acc, ","); acc := acc + ",";
      AsciiConcat(acc, visMean); acc := acc + visMean;
      AsciiConcat(acc, ","); acc := acc + ",";
      AsciiConcat(acc, nirGreenRatio); acc := acc + nirGreenRatio;
      AsciiConcat(acc, ","); acc := acc + ",";
      AsciiConcat(acc, whiteness); acc := acc + whiteness;
      assert acc == data;
    }
    SendFrameLength(data);
    EndToEnd(airTemp, humidity, surfaceTemp, visMean, nirGreenRatio, whiteness, rssi, snr, parseNum);
  }
}
