/**
 * A host record as the parser builds it: a JavaScript object whose keys are
 * field names.  Key presence matters (a record opened by a boundary line has all
 * thirteen keys, a record built before the first boundary only those its lines
 * set), so a record is a map from field to string.
 */
module HostRecord {

  import opened Wrappers

  /** The thirteen keys a boundary line gives a record. */
  datatype Field = Ip | Port | Country | Region | City | Asn | Organization | Date | Server | Title | Protocol | Domain | Cloud

  type Entry = map<Field, string>

  const DefaultProtocol: string := "HTTP/1.1"
  const SecureProtocol: string := "HTTPS"

  /** The values a boundary line gives every key but ip and port. */
  const Blank: Entry := map[Ip := "", Port := "", Country := "", Region := "", City := "", Asn := "",
                            Organization := "", Date := "", Server := "", Title := "", Protocol := DefaultProtocol,
                            Domain := "", Cloud := ""]

  /** The record a boundary line opens: ip and port from the line, protocol `HTTP/1.1`, everything else empty. */
  function Fresh(ip: string, port: string): (e: Entry)
    ensures HasAllFields(e)
    ensures e[Ip] == ip && e[Port] == port
  {
    CoversAllFields(Blank);
    Blank[Ip := ip][Port := port]
  }

  /** Every key of a freshly opened record but ip, port and protocol is empty. */
  lemma FreshSpec(ip: string, port: string)
    ensures Fresh(ip, port)[Protocol] == DefaultProtocol
    ensures forall f :: f != Ip && f != Port && f != Protocol ==> Fresh(ip, port)[f] == ""
  {
  }

  /** `item[f]`: the value, or None for `undefined`. */
  function Lookup(e: Entry, f: Field): Option<string> {
    if f in e then Some(e[f]) else None
  }

  /** JavaScript truthiness of `item[f]`: present and not the empty string. */
  predicate Truthy(e: Entry, f: Field) {
    f in e && e[f] != ""
  }

  /** `item[f] || ''`. */
  function OrEmpty(e: Entry, f: Field): string {
    if f in e then e[f] else ""
  }

  /** `item[f] || ''` is the value when it is truthy and the empty string otherwise. */
  lemma OrEmptyTruthy(e: Entry, f: Field)
    ensures Truthy(e, f) <==> OrEmpty(e, f) != ""
    ensures Truthy(e, f) ==> Lookup(e, f) == Some(OrEmpty(e, f))
    ensures !Truthy(e, f) ==> OrEmpty(e, f) == ""
  {
  }

  predicate HasAllFields(e: Entry) {
    forall f :: f in e
  }

  lemma CoversAllFields(e: Entry)
    requires Ip in e && Port in e && Country in e && Region in e && City in e && Asn in e
    requires Organization in e && Date in e && Server in e && Title in e && Protocol in e
    requires Domain in e && Cloud in e
    ensures HasAllFields(e)
  {
    forall f: Field ensures f in e {
      match f
      case Ip =>
      case Port =>
      case Country =>
      case Region =>
      case City =>
      case Asn =>
      case Organization =>
      case Date =>
      case Server =>
      case Title =>
      case Protocol =>
      case Domain =>
      case Cloud =>
    }
  }
}
