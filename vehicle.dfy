/**
 * The vehicle record shown on the dashboard: an immutable value with three
 * text fields and a display colour.  Any strings are accepted; nothing is
 * validated when a record is built.
 */
module Vehicles {

  /** The colour a status badge is drawn in.  The UI toolkit packs a colour
      into one unsigned 64-bit word; the model keeps only that word and never
      looks inside it. */
  newtype Color = c: int | 0 <= c < 0x1_0000_0000_0000_0000

  /** One tracked vehicle: its number plate, a free-text status label
      ("Running", "Idle", ...), a speed or last-seen time, and the colour of
      its status badge.  Being a datatype, it has structural equality and
      cannot be changed after construction. */
  datatype Vehicle = Vehicle(
    vehicleNumber: string,
    status: string,
    speedOrTime: string,
    statusColor: Color
  )

  /** Two records agree on every field that carries text. */
  predicate SameText(v: Vehicle, w: Vehicle)
  {
    && v.vehicleNumber == w.vehicleNumber
    && v.status == w.status
    && v.speedOrTime == w.speedOrTime
  }

  /** Two vehicles are equal exactly when all four fields are equal. */
  lemma VehicleEquality(v: Vehicle, w: Vehicle)
    ensures v == w <==> SameText(v, w) && v.statusColor == w.statusColor
  {
  }

  /** Every choice of field values, empty strings included, forms a record
      that hands those values back unchanged. */
  lemma AnyFieldsFormVehicle(number: string, status: string, speedOrTime: string, color: Color)
    ensures Vehicle(number, status, speedOrTime, color).vehicleNumber == number
    ensures Vehicle(number, status, speedOrTime, color).status == status
    ensures Vehicle(number, status, speedOrTime, color).speedOrTime == speedOrTime
    ensures Vehicle(number, status, speedOrTime, color).statusColor == color
  {
  }

  /** Changing only the colour keeps every text field. */
  lemma RecolorKeepsText(v: Vehicle, c: Color)
    ensures SameText(v, v.(statusColor := c))
    ensures v.(statusColor := c).statusColor == c
  {
  }
}
