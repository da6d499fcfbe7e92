/** The reservations table behind `reservations.service`, as a map from
    `reservation_id` to the stored row, with the next id the table will hand
    out. Ids start at 1 and are never reused. */
module Store {
  import opened Wrappers
  import opened JsValues

  const IdKey: string := "reservation_id"

  /** `reservation.reservation_id = id`: the record with its id set and every
      other property kept. */
  function WithId(b: Body, id: nat): (r: Body)
    ensures Get(r, IdKey) == Number(id)
    ensures forall k :: k != IdKey ==> Get(r, k) == Get(b, k)
    ensures r.Keys == b.Keys + {IdKey}
  {
    b[IdKey := Number(id)]
  }

  /** The row with its `status` column set. */
  function WithStatus(row: Body, status: Value): (r: Body)
    ensures Get(r, "status") == status
    ensures forall k :: k != "status" ==> Get(r, k) == Get(row, k)
  {
    row["status" := status]
  }

  /** An update of the row by the columns the body names; the row keeps its id. */
  function Merge(row: Body, b: Body, id: nat): (r: Body)
    ensures Get(r, IdKey) == Number(id)
    ensures forall k :: k != IdKey && k in b ==> Get(r, k) == b[k]
    ensures forall k :: k != IdKey && k !in b ==> Get(r, k) == Get(row, k)
  {
    WithId(row + b, id)
  }

  class ReservationStore {
    var rows: map<nat, Body>
    var nextId: nat

    /** Every stored id is below the next one handed out, and every row
        carries its own id. */
    predicate Valid()
      reads this
    {
      (forall id :: id in rows ==> id < nextId)
      && (forall id :: id in rows ==> Get(rows[id], IdKey) == Number(id))
      && nextId >= 1
    }

    constructor()
      ensures Valid() && rows == map[] && nextId == 1
    {
      rows := map[];
      nextId := 1;
    }

    /** `service.read(id)`: the stored row, or nothing. */
    method Read(id: nat) returns (r: Option<Body>)
      ensures r.Some? <==> id in rows
      ensures r.Some? ==> r.value == rows[id]
    {
      if id in rows {
        r := Some(rows[id]);
      } else {
        r := None;
      }
    }

    /** `service.create(reservation)`: stores the record under a fresh id and
        returns that id. No existing row changes. */
    method Create(b: Body) returns (id: nat)
      requires Valid()
      modifies this
      ensures Valid()
      ensures id == old(nextId) && id !in old(rows)
      ensures rows == old(rows)[id := WithId(b, id)] && nextId == id + 1
    {
      id := nextId;
      rows := rows[id := WithId(b, id)];
      nextId := nextId + 1;
    }

    /** `service.update(id, status)`: sets the status of one row. */
    method UpdateStatus(id: nat, status: Value) returns (row: Option<Body>)
      requires Valid()
      modifies this
      ensures Valid() && nextId == old(nextId)
      ensures id in old(rows) ==> row == Some(WithStatus(old(rows)[id], status))
                                   && rows == old(rows)[id := row.value]
      ensures id !in old(rows) ==> row.None? && rows == old(rows)
    {
      if id in rows {
        var updated := WithStatus(rows[id], status);
        rows := rows[id := updated];
        row := Some(updated);
      } else {
        row := None;
      }
    }

    /** `service.modify(id, reservation)`: overwrites the columns the body
        names in one row. */
    method Modify(id: nat, b: Body) returns (row: Option<Body>)
      requires Valid()
      modifies this
      ensures Valid() && nextId == old(nextId)
      ensures id in old(rows) ==> row == Some(Merge(old(rows)[id], b, id))
                                   && rows == old(rows)[id := row.value]
      ensures id !in old(rows) ==> row.None? && rows == old(rows)
    {
      if id in rows {
        var updated := Merge(rows[id], b, id);
        rows := rows[id := updated];
        row := Some(updated);
      } else {
        row := None;
      }
    }
  }
}
