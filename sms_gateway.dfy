/** The recipient addresses `GeneralUtil.send_sms` hands to the SMTP server: a phone
    number followed by its carrier's email-to-SMS gateway suffix. */
module SmsGateway {
  import opened Wrappers

  /** The carrier table of `send_sms`. The T-Mobile suffix starts with a space. */
  const Carriers: map<string, string> := map[
    "att" := "@mms.att.net",
    "tmobile" := " @tmomail.net",
    "verizon" := "@vtext.com",
    "sprint" := "@page.nextel.com",
    "cricket" := "@mms.cricketwireless.net"
  ]

  /** The default of the `carrier` parameter. */
  const DefaultCarrier: string := "verizon"

  /** A dictionary lookup of this key failed. */
  datatype KeyError = KeyError(key: string)

  /** The `receiver` argument: a phone number, or a dictionary from a person to a
      dictionary with that person's `number` and `carrier`, in insertion order. */
  datatype Receiver =
    | Number(number: string)
    | People(entries: seq<(string, map<string, string>)>)

  /** The `to_number` value: one address, or a list of them. */
  datatype Recipients = Single(address: string) | Many(addresses: seq<string>)

  /** The address for one number and carrier, an error for an unknown carrier. */
  function GatewayAddress(number: string, carrier: string): (r: Result<string, KeyError>)
    ensures r.Ok? <==> carrier in Carriers
    ensures r.Ok? ==> r.value == number + Carriers[carrier]
    ensures r.Err? ==> r.error == KeyError(carrier)
  {
    if carrier in Carriers then Ok(number + Carriers[carrier]) else Err(KeyError(carrier))
  }

  /** The address of one dictionary entry, `f"{info['number']}{carriers[info['carrier']]}"`,
      with the lookups failing in the order they are evaluated. */
  function EntryAddress(info: map<string, string>): (r: Result<string, KeyError>)
    ensures r.Ok? <==> "number" in info && "carrier" in info && info["carrier"] in Carriers
    ensures r.Ok? ==> r.value == info["number"] + Carriers[info["carrier"]]
    ensures "number" !in info ==> r == Err(KeyError("number"))
    ensures "number" in info && "carrier" !in info ==> r == Err(KeyError("carrier"))
    ensures ("number" in info && "carrier" in info && info["carrier"] !in Carriers)
              ==> r == Err(KeyError(info["carrier"]))
  {
    if "number" !in info then Err(KeyError("number"))
    else if "carrier" !in info then Err(KeyError("carrier"))
    else GatewayAddress(info["number"], info["carrier"])
  }

  /** The list comprehension over the dictionary's entries: one address per entry in
      order, or the error of the first entry that fails. */
  function EntryAddresses(entries: seq<(string, map<string, string>)>): (r: Result<seq<string>, KeyError>)
    ensures r.Ok? <==> forall k :: 0 <= k < |entries| ==> EntryAddress(entries[k].1).Ok?
    ensures r.Ok? ==>
      && |r.value| == |entries|
      && forall k :: 0 <= k < |entries| ==> r.value[k] == EntryAddress(entries[k].1).value
  {
    if entries == [] then Ok([])
    else
      match EntryAddress(entries[0].1)
      case Err(e) => Err(e)
      case Ok(address) =>
        match EntryAddresses(entries[1..])
        case Err(e) => Err(e)
        case Ok(rest) => Ok([address] + rest)
  }

  /** A failing comprehension reports the error of its first failing entry. */
  lemma {:induction false} FirstFailingEntry(entries: seq<(string, map<string, string>)>)
    requires EntryAddresses(entries).Err?
    ensures exists k ::
      && 0 <= k < |entries|
      && EntryAddress(entries[k].1) == Err(EntryAddresses(entries).error)
      && forall j :: 0 <= j < k ==> EntryAddress(entries[j].1).Ok?
    decreases |entries|
  {
    var e := EntryAddresses(entries).error;
    if EntryAddress(entries[0].1).Ok? {
      var tail := entries[1..];
      FirstFailingEntry(tail);
      var k :| 0 <= k < |tail| && EntryAddress(tail[k].1) == Err(e)
        && forall j :: 0 <= j < k ==> EntryAddress(tail[j].1).Ok?;
      assert entries[k + 1] == tail[k];
      forall j | 0 <= j < k + 1 ensures EntryAddress(entries[j].1).Ok? {
        if j > 0 { assert entries[j] == tail[j - 1]; }
      }
    } else {
      assert EntryAddress(entries[0].1) == Err(e);
    }
  }

  /** `to_number` in `send_sms`. The `carrier` argument is used only for a single
      number; a dictionary brings each person's own carrier. */
  function ToNumber(receiver: Receiver, carrier: string := DefaultCarrier): (r: Result<Recipients, KeyError>)
    ensures receiver.Number? ==> (r.Ok? <==> carrier in Carriers)
    ensures receiver.Number? && r.Ok? ==> r.value == Single(receiver.number + Carriers[carrier])
    ensures receiver.Number? && r.Err? ==> r.error == KeyError(carrier)
    ensures receiver.People? ==>
      (r.Ok? <==> forall k :: 0 <= k < |receiver.entries| ==> EntryAddress(receiver.entries[k].1).Ok?)
    ensures receiver.People? && r.Ok? ==>
      && r.value.Many?
      && |r.value.addresses| == |receiver.entries|
      && forall k :: 0 <= k < |receiver.entries| ==>
           r.value.addresses[k] == EntryAddress(receiver.entries[k].1).value
    ensures receiver.People? && r.Err? ==> r == Err(EntryAddresses(receiver.entries).error)
  {
    match receiver
    case People(entries) =>
      (match EntryAddresses(entries)
       case Ok(addresses) => Ok(Many(addresses))
       case Err(e) => Err(e))
    case Number(number) =>
      (match GatewayAddress(number, carrier)
       case Ok(address) => Ok(Single(address))
       case Err(e) => Err(e))
  }

  /** Without a `carrier` argument a single number goes to the Verizon gateway. */
  lemma DefaultCarrierIsVerizon(number: string)
    ensures ToNumber(Number(number)) == Ok(Single(number + "@vtext.com"))
    ensures ToNumber(Number(number)) == ToNumber(Number(number), "verizon")
  {
  }

  /** For a dictionary the `carrier` argument makes no difference. */
  lemma PeopleIgnoreCarrier(entries: seq<(string, map<string, string>)>, c1: string, c2: string)
    ensures ToNumber(People(entries), c1) == ToNumber(People(entries), c2)
  {
  }

  /** Every gateway suffix starts with `@` except T-Mobile's, which starts with a space,
      so a T-Mobile address has a space between the number and the `@`. */
  lemma TMobileSuffixHasSpace(number: string)
    ensures forall c :: c in Carriers ==> (Carriers[c][0] == '@' <==> c != "tmobile")
    ensures ToNumber(Number(number), "tmobile") == Ok(Single(number + " @tmomail.net"))
    ensures (number + Carriers["tmobile"])[|number|] == ' '
  {
  }
}
