/**
 The rows of the five tables of the booking application (users, admins,
 services, reservations, reviews). Every table is a flat file with a header
 and one row per record; here a table is a sequence of rows, in file order,
 and every row carries the natural-number `id` that is its surrogate key.
 */
module Records {

  datatype Option<T> = None | Some(value: T)

  datatype User = User(id: nat, username: string, password: string, email: string, phone: string)

  datatype Admin = Admin(id: nat, username: string, password: string)

  datatype Service = Service(id: nat, name: string, description: string, price: string, duration: string)

  datatype Reservation = Reservation(
    id: nat, userId: nat, serviceId: nat, date: string, time: string, barber: string, status: string)

  datatype Review = Review(id: nat, userId: nat, rating: string, comment: string, date: string)

  /** The signed-in principal: the id and username copied from the matching row, and its kind. */
  datatype Session = Session(userId: nat, username: string, isAdmin: bool)

  /** The contents of all five tables at one moment. */
  datatype Db = Db(
    users: seq<User>, admins: seq<Admin>, services: seq<Service>,
    reservations: seq<Reservation>, reviews: seq<Review>)

  /** The only status the application writes into a reservation row. */
  const Confirmed: string := "confirmed"

  /** The other status the dashboard counts; no handler ever writes it. */
  const Cancelled: string := "cancelled"

  // The `id` column of each table, as a function value for the generic table operations.
  function UserKey(u: User): nat { u.id }
  function AdminKey(a: Admin): nat { a.id }
  function ServiceKey(s: Service): nat { s.id }
  function ReservationKey(r: Reservation): nat { r.id }
  function ReviewKey(r: Review): nat { r.id }
}
