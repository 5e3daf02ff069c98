/**
 * `EDEntry`: a typical emergency-department entry, a record whose fields the
 * caller fills in after construction.
 */
module Entry {
  import opened Wrappers

  /** A point in time, as a count of seconds; the model does not interpret it. */
  type Timestamp = int

  class EDEntry {
    /** The entry's identifier (a hashable value, a string here). */
    var id: Option<string>
    var arrivalDate: Option<Timestamp>
    var departureDate: Option<Timestamp>
    var gender: Option<string>

    /** Every field starts unset, and an entry without a gender counts as a girl. */
    constructor()
      ensures id == None && arrivalDate == None && departureDate == None && gender == None
      ensures IsGirl()
    {
      id := None;
      arrivalDate := None;
      departureDate := None;
      gender := None;
    }

    /**
     * `is_girl`: true when the gender is unset or is exactly "F", false for
     * every other gender. Being a function, reading it changes no field.
     */
    function IsGirl(): (r: bool)
      reads this
      ensures gender.None? ==> r
      ensures gender == Some("F") ==> r
      ensures gender.Some? && gender.value != "F" ==> !r
    {
      match gender
      case None => true
      case Some(g) => g == "F"
    }
  }
}
