/**
 * The participant record of src/data_objects/Person.js: an immutable value.
 * The gender string is kept verbatim; the lineup variants compare it against
 * "female" and "male".
 */
module People {

  datatype Person = Person(
    name: string,
    weight: int,
    gender: string,
    oc400Times: seq<int>,
    isSteer: bool,
    isCaller: bool)

  /** `new Person(name, weight, gender, oc_400_times = [0, 0], isSteer = false, isCaller = false)`. */
  function NewPerson(name: string, weight: int, gender: string,
                     oc400Times: seq<int> := [0, 0], isSteer: bool := false,
                     isCaller: bool := false): (p: Person)
    ensures p.name == name && p.weight == weight && p.gender == gender
    ensures p.oc400Times == oc400Times && p.isSteer == isSteer && p.isCaller == isCaller
  {
    Person(name, weight, gender, oc400Times, isSteer, isCaller)
  }

  /** With the three-argument call used by the roster loader, the optional fields take their defaults. */
  lemma NewPersonDefaults(name: string, weight: int, gender: string)
    ensures NewPerson(name, weight, gender).oc400Times == [0, 0]
    ensures !NewPerson(name, weight, gender).isSteer && !NewPerson(name, weight, gender).isCaller
  {
  }
}
